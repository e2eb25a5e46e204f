/** Which directory entries the image-list scripts treat as images: Node's
    `path.extname` and `path.parse(...).name` on a bare file name, and the
    extension filter both scripts apply. */
module ImageFiles {
  import opened Optional
  import opened Text

  /** The position of the last `c` in `s`. */
  function LastIndexOf(s: string, c: char): (r: Option<nat>)
    ensures r.None? <==> c !in s
    ensures r.Some? ==> r.value < |s| && s[r.value] == c && c !in s[r.value + 1..]
  {
    if s == [] then None
    else if s[|s| - 1] == c then Some(|s| - 1)
    else
      var r := LastIndexOf(s[..|s| - 1], c);
      assert r.Some? ==> s[r.value + 1..] == s[..|s| - 1][r.value + 1..] + [s[|s| - 1]];
      r
  }

  /** `path.extname` on a name without `/`: from the last dot to the end,
      except that there is none when there is no dot, when the only dot
      opens the name, and for `..`. */
  function ExtName(file: string): (ext: string)
    requires '/' !in file
    ensures |ext| <= |file| && ext == file[|file| - |ext|..]
    ensures ext != [] ==> ext[0] == '.' && '.' !in ext[1..] && |ext| < |file|
  {
    match LastIndexOf(file, '.')
    case None => ""
    case Some(d) => if d == 0 || file == ".." then "" else file[d..]
  }

  /** `path.parse(file).name`: the name without its extension. */
  function BaseName(file: string): (base: string)
    requires '/' !in file
    ensures base + ExtName(file) == file
  {
    file[..|file| - |ExtName(file)|]
  }

  /** A proper extension (a dot and then at least one character, none of
      them a dot) after a name that does not start with a dot is what
      `extname` returns. */
  lemma ExtNameOf(base: string, ext: string)
    requires '/' !in base + ext
    requires base != [] && base[0] != '.'
    requires |ext| >= 2 && ext[0] == '.' && '.' !in ext[1..]
    ensures ExtName(base + ext) == ext
    ensures BaseName(base + ext) == base
  {
    var f := base + ext;
    assert f[|base|..] == ext;
    assert f[|base|] == '.';
    var d := LastIndexOf(f, '.');
    assert d == Some(|base|);
  }

  const ImageExtensions: seq<string> := [".jpg", ".jpeg", ".png", ".gif", ".webp", ".bmp"]

  /** The filter of both scripts: the lower-cased extension is one of the six
      and the entry is not the list file itself. */
  predicate IsImageFile(file: string)
    requires '/' !in file
    ensures IsImageFile(file) ==> ExtName(file) != [] && file != "image-list.json"
  {
    ToLower(ExtName(file)) in ImageExtensions && file != "image-list.json"
  }

  /** The list file would be dropped by its extension alone. */
  lemma ListFileHasNoImageExtension()
    ensures ToLower(ExtName("image-list.json")) !in ImageExtensions
  {
    var f := "image-list.json";
    assert LastIndexOf(f, '.') == Some(10) by {
      assert f[10] == '.';
      assert '.' !in f[11..];
    }
    assert ExtName(f) == ".json";
  }

  /** The extension test ignores case: `CAT.PNG` is an image. */
  lemma UpperCaseImageFile()
    ensures IsImageFile("CAT.PNG")
  {
    var f := "CAT.PNG";
    assert f == "CAT" + ".PNG";
    ExtNameOf("CAT", ".PNG");
    assert ToLower(".PNG") == ".png";
  }

  /** Every listed extension is a dot and then `j`, `p`, `g`, `w` or `b`. */
  lemma ImageExtensionShape(e: string)
    requires e in ImageExtensions
    ensures |e| >= 4 && e[0] == '.' && e[1] in "jpgwb"
  {
  }

  /** Other extensions are dropped. */
  lemma TextFileIsNotImage()
    ensures !IsImageFile("notes.txt")
  {
    assert "notes.txt" == "notes" + ".txt";
    ExtNameOf("notes", ".txt");
    var e := ToLower(".txt");
    assert e[1] == 't';
    if e in ImageExtensions {
      ImageExtensionShape(e);
    }
  }

  /** A name that is only a dot and an extension has no extension. */
  lemma DotFileIsNotImage()
    ensures !IsImageFile(".png")
  {
    assert ".png"[0] == '.' && '.' !in ".png"[1..];
    assert LastIndexOf(".png", '.') == Some(0);
  }

  predicate NoSlashes(files: seq<string>) {
    forall i :: 0 <= i < |files| ==> '/' !in files[i]
  }

  /** `a` is `b` with some entries dropped, the rest in their order. */
  predicate IsSubsequence<T(==)>(a: seq<T>, b: seq<T>)
    decreases |b|
  {
    if a == [] then true
    else if b == [] then false
    else if a[0] == b[0] then IsSubsequence(a[1..], b[1..])
    else IsSubsequence(a, b[1..])
  }

  /** `files.filter(...)`: the image files of a listing, in listing order. */
  function FilterImageFiles(files: seq<string>): (kept: seq<string>)
    requires NoSlashes(files)
    ensures forall f :: f in kept <==> f in files && '/' !in f && IsImageFile(f)
    ensures NoSlashes(kept)
    ensures IsSubsequence(kept, files)
  {
    if files == [] then []
    else
      var rest := FilterImageFiles(files[1..]);
      assert forall f :: f in files <==> f == files[0] || f in files[1..];
      if IsImageFile(files[0]) then [files[0]] + rest
      else
        assert rest != [] ==> rest[0] != files[0] && IsSubsequence(rest, files[1..]);
        rest
  }

  /** Filtering a listing piece by piece gives the same list. */
  lemma {:induction false} FilterAppend(a: seq<string>, b: seq<string>)
    requires NoSlashes(a) && NoSlashes(b)
    ensures NoSlashes(a + b)
    ensures FilterImageFiles(a + b) == FilterImageFiles(a) + FilterImageFiles(b)
  {
    var ab := a + b;
    assert forall i :: 0 <= i < |ab| ==> ab[i] == (if i < |a| then a[i] else b[i - |a|]);
    if a == [] {
      assert ab == b;
    } else {
      assert ab[0] == a[0];
      assert ab[1..] == a[1..] + b;
      FilterAppend(a[1..], b);
    }
  }

  /** Filtering the filtered list changes nothing. */
  lemma {:induction false} FilterIdempotent(files: seq<string>)
    requires NoSlashes(files)
    ensures FilterImageFiles(FilterImageFiles(files)) == FilterImageFiles(files)
  {
    if files != [] {
      FilterIdempotent(files[1..]);
      if IsImageFile(files[0]) {
        var kept := FilterImageFiles(files);
        assert kept[1..] == FilterImageFiles(files[1..]);
      }
    }
  }
}
