/** The records both versions of the game context declare: the puzzle image,
    its difficulty tier and the game status. */
module GameTypes {
  import opened Optional

  datatype Difficulty = Easy | Medium | Hard

  /** `PixelImage`: the puzzle, whose `name` is the answer and whose
      reveal grid is `gridSize` by `gridSize`. */
  datatype PixelImage = PixelImage(
    id: string,
    name: string,
    category: string,
    imageData: string,
    gridSize: nat,
    difficulty: Difficulty)

  /** `paused` is declared but no action enters or leaves it. */
  datatype GameStatus = Menu | Playing | Paused | Completed | Failed

  /** The base of a successful completion score: 100 for a hard image, 75 for
      a medium one, and 50 for an easy one or when there is no image at all. */
  function BaseScore(image: Option<PixelImage>): (b: nat)
    ensures b == 100 <==> image.Some? && image.value.difficulty == Hard
    ensures b == 75 <==> image.Some? && image.value.difficulty == Medium
    ensures b == 50 <==> image.None? || image.value.difficulty == Easy
  {
    match image
    case None => 50
    case Some(img) =>
      match img.difficulty
      case Hard => 100
      case Medium => 75
      case Easy => 50
  }

  /** `state.currentImage?.gridSize * state.currentImage?.gridSize || 1`: the
      product, or 1 when there is no image or the product is 0. */
  function TotalPixels(image: Option<PixelImage>): (t: nat)
    ensures t > 0
    ensures image.Some? && image.value.gridSize > 0 ==> t == image.value.gridSize * image.value.gridSize
    ensures image.None? ==> t == 1
    ensures image.Some? && image.value.gridSize == 0 ==> t == 1
  {
    if image.Some? && image.value.gridSize * image.value.gridSize != 0
    then image.value.gridSize * image.value.gridSize
    else 1
  }
}
