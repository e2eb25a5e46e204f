/** The watching image-list script: each image file of the directory becomes
    a record whose answer, category and difficulty are read from a file name
    of the form `answer_category_difficulty.ext`. */
module WatchImages {
  import opened Text
  import opened ImageFiles

  /** One entry of the written list. The difficulty is whatever text the
      file name holds; it is not checked against easy, medium or hard. */
  datatype ImageRecord = ImageRecord(filename: string, name: string, category: string, difficulty: string)

  /** `parts[i] || fallback`: a missing or empty segment gives the fallback. */
  function SegmentOr(parts: seq<string>, i: nat, fallback: string): (s: string)
    ensures s == fallback || (i < |parts| && s == parts[i] != [])
  {
    if i < |parts| && parts[i] != [] then parts[i] else fallback
  }

  /** The record of one file: its base name split at `_`, the first three
      segments read as answer, category and difficulty. */
  function ParseRecord(file: string): (r: ImageRecord)
    requires '/' !in file
    ensures r.filename == file
    ensures r.category != [] && r.difficulty != []
    ensures '_' !in r.category && '_' !in r.difficulty
    ensures r.name != [] || BaseName(file) == []
  {
    RecordOf(file, BaseName(file))
  }

  /** The fields read from a base name. */
  function RecordOf(file: string, base: string): (r: ImageRecord)
    ensures r.filename == file
    ensures r.category != [] && r.difficulty != []
    ensures '_' !in r.category && '_' !in r.difficulty
    ensures r.name != [] || base == []
  {
    var parts := Split(base, '_');
    ImageRecord(file, SegmentOr(parts, 0, base), SegmentOr(parts, 1, "animals"), SegmentOr(parts, 2, "easy"))
  }

  /** A file named from segments without `_` and a proper extension gives
      back its segments: the first as the answer (or the whole base when it
      is empty), then category and difficulty with their defaults; any
      further segment is ignored. */
  lemma ParseRecordOf(parts: seq<string>, ext: string)
    requires |parts| >= 1 && forall i :: 0 <= i < |parts| ==> '_' !in parts[i]
    requires '/' !in Join(parts, '_') + ext
    requires Join(parts, '_') != [] && Join(parts, '_')[0] != '.'
    requires |ext| >= 2 && ext[0] == '.' && '.' !in ext[1..]
    ensures var base := Join(parts, '_');
            var r := ParseRecord(base + ext);
            && r.filename == base + ext
            && r.name == (if parts[0] != [] then parts[0] else base)
            && r.category == (if |parts| > 1 && parts[1] != [] then parts[1] else "animals")
            && r.difficulty == (if |parts| > 2 && parts[2] != [] then parts[2] else "easy")
  {
    ExtNameOf(Join(parts, '_'), ext);
    SplitJoin(parts, '_');
  }

  /** `cat_pets_hard.png`: all three fields from the name. */
  lemma FullNameParsed()
    ensures ParseRecord("cat_pets_hard.png") == ImageRecord("cat_pets_hard.png", "cat", "pets", "hard")
  {
    var parts := ["cat", "pets", "hard"];
    assert Join(parts, '_') == "cat_pets_hard" by {
      assert parts[1..] == ["pets", "hard"];
      assert parts[1..][1..] == ["hard"];
    }
    assert "cat_pets_hard" + ".png" == "cat_pets_hard.png";
    ParseRecordOf(parts, ".png");
  }

  /** `dog.jpg`: the defaults fill category and difficulty. */
  lemma BareNameParsed()
    ensures ParseRecord("dog.jpg") == ImageRecord("dog.jpg", "dog", "animals", "easy")
  {
    assert Join(["dog"], '_') == "dog";
    assert "dog" + ".jpg" == "dog.jpg";
    ParseRecordOf(["dog"], ".jpg");
  }

  /** `_cup_food.png`: with an empty first segment the whole base is the
      answer, underscores included, and the segments shift. */
  lemma EmptyAnswerSegment()
    ensures ParseRecord("_cup_food.png").name == "_cup_food"
    ensures ParseRecord("_cup_food.png").category == "cup"
  {
    var parts := ["", "cup", "food"];
    assert Join(parts, '_') == "_cup_food" by {
      assert parts[1..] == ["cup", "food"];
      assert parts[1..][1..] == ["food"];
    }
    assert "_cup_food" + ".png" == "_cup_food.png";
    ParseRecordOf(parts, ".png");
  }

  /** `updateImageList` in this script: one record per image file, in
      listing order, each keeping the file's own name. */
  function UpdateImageList(files: seq<string>): (images: seq<ImageRecord>)
    requires NoSlashes(files)
    ensures |images| == |FilterImageFiles(files)|
    ensures forall i :: 0 <= i < |images| ==> images[i] == ParseRecord(FilterImageFiles(files)[i])
    ensures forall i :: 0 <= i < |images| ==> images[i].filename == FilterImageFiles(files)[i]
    ensures forall r :: r in images ==> r.filename in files && IsImageFile(r.filename)
  {
    var kept := FilterImageFiles(files);
    seq(|kept|, i requires 0 <= i < |kept| => ParseRecord(kept[i]))
  }
}
