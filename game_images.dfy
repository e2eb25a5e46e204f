/** Building puzzle records from image file names: the answer is the file
    name without its extension, and the image is served from `/images/`. */
module GameImages {
  import opened Text
  import opened GameTypes
  import opened Optional
  import opened ImageFiles

  /** What `/\.[^/.]+$/` matches: a dot, then one or more characters that
      are neither a dot nor a slash, up to the end. */
  predicate IsExtension(e: string) {
    |e| >= 2 && e[0] == '.' && '.' !in e[1..] && '/' !in e[1..]
  }

  /** `filename.replace(/\.[^/.]+$/, '')`. Only the last dot can start a
      match, since the match runs to the end without another dot. */
  function StripExtension(filename: string): (name: string)
    ensures |name| <= |filename| && name == filename[..|name|]
    ensures name != filename ==> IsExtension(filename[|name|..])
  {
    match LastIndexOf(filename, '.')
    case None => filename
    case Some(d) => if d + 1 < |filename| && '/' !in filename[d + 1..] then filename[..d] else filename
  }

  /** Exactly an extension at the end is removed. */
  lemma StripExtensionOf(base: string, ext: string)
    requires IsExtension(ext)
    ensures StripExtension(base + ext) == base
  {
    var f := base + ext;
    assert f[|base|..] == ext;
    assert f[|base|] == '.';
    assert LastIndexOf(f, '.') == Some(|base|);
    assert f[|base| + 1..] == ext[1..];
  }

  /** Only the last extension goes, and a name that is all extension
      becomes empty. */
  lemma StrippedExamples()
    ensures StripExtension("a.b.png") == "a.b"
    ensures StripExtension(".png") == ""
  {
    StripExtensionOf("a.b", ".png");
    assert "a.b" + ".png" == "a.b.png";
    StripExtensionOf("", ".png");
    assert "" + ".png" == ".png";
  }

  /** A trailing dot or no dot at all keeps the name whole. */
  lemma KeptExamples()
    ensures StripExtension("cat.") == "cat."
    ensures StripExtension("cat") == "cat"
  {
    assert LastIndexOf("cat.", '.') == Some(3);
    assert '.' !in "cat";
  }

  /** `createPixelImageFromFile`, with `Date.now()` passed in as `now`. */
  function CreatePixelImageFromFile(filename: string, category: string, difficulty: Difficulty, now: nat): (image: PixelImage)
    ensures image.gridSize == 16
    ensures image.category == category && image.difficulty == difficulty
    ensures image.imageData == "/images/" + filename
    ensures image.id == image.name + "-" + NatToString(now)
    ensures image.name == StripExtension(filename)
    ensures |image.name| <= |filename| && image.name == filename[..|image.name|]
  {
    var name := StripExtension(filename);
    PixelImage(name + "-" + NatToString(now), name, category, "/images/" + filename, 16, difficulty)
  }

  /** The defaults: category `animals`, difficulty easy. */
  function CreatePixelImageFromFileWithDefaults(filename: string, now: nat): (image: PixelImage)
    ensures image.category == "animals" && image.difficulty == Easy
    ensures image == CreatePixelImageFromFile(filename, image.category, image.difficulty, now)
  {
    CreatePixelImageFromFile(filename, "animals", Easy, now)
  }

  /** The answer of `cat.jpg` is `cat`; the image keeps the full file name. */
  lemma ImageFromFile(base: string, ext: string, category: string, difficulty: Difficulty, now: nat)
    requires IsExtension(ext)
    ensures CreatePixelImageFromFile(base + ext, category, difficulty, now).name == base
    ensures CreatePixelImageFromFile(base + ext, category, difficulty, now).imageData == "/images/" + base + ext
  {
    StripExtensionOf(base, ext);
  }

  /** The timestamp can be read back from the id: it follows the id's last
      dash, since the digits hold none. */
  lemma IdEndsWithTimestamp(filename: string, now: nat)
    ensures var id := CreatePixelImageFromFile(filename, "animals", Easy, now).id;
            var dash := LastIndexOf(id, '-');
            dash.Some? && AllDigits(id[dash.value + 1..]) && ParseNat(id[dash.value + 1..]) == now
  {
    var image := CreatePixelImageFromFile(filename, "animals", Easy, now);
    var digits := NatToString(now);
    var k := |image.name|;
    assert image.id == image.name + "-" + digits;
    assert image.id[k] == '-';
    assert image.id[k + 1..] == digits;
    assert '-' !in digits by {
      assert forall i :: 0 <= i < |digits| ==> IsDigit(digits[i]);
    }
    assert LastIndexOf(image.id, '-') == Some(k);
    ParseNatToString(now);
  }

  /** `loadImagesFromFolder`: the three categories, each with no images. */
  function LoadImagesFromFolder(): (images: map<string, seq<PixelImage>>)
    ensures images.Keys == {"animals", "objects", "food"}
    ensures forall c :: c in images ==> images[c] == []
  {
    map["animals" := [], "objects" := [], "food" := []]
  }
}
