/** What Tesseract's recognition hands back, and the handler's projection of each
    recognised word onto the public `{text, border}` shape. */
module Ocr {
  import opened Wrappers

  /** A word's bounding box as the engine reports it, in pixels. */
  datatype BBox = BBox(x0: int, y0: int, x1: int, y1: int)

  /** One recognised word; the engine's other per-word fields are not read. */
  datatype Word = Word(text: string, bbox: BBox)

  /** The `data` object of a recognition. Either field may be missing. */
  datatype Recognition = Recognition(text: Option<string>, words: Option<seq<Word>>)

  /** The public bounding box of a word in the response. */
  datatype Border = Border(minX: int, minY: int, maxX: int, maxY: int)

  /** One entry of `textCoordinates` in the response. */
  datatype TextCoordinate = TextCoordinate(text: string, border: Border)

  /** The arrow passed to `words.map`: renames `x0, y0, x1, y1` to
      `minX, minY, maxX, maxY` and keeps the text. */
  function ToCoordinate(w: Word): (c: TextCoordinate)
    ensures FromCoordinate(c) == w
  {
    TextCoordinate(w.text, Border(w.bbox.x0, w.bbox.y0, w.bbox.x1, w.bbox.y1))
  }

  /** Reads an engine word back out of a response entry. */
  function FromCoordinate(c: TextCoordinate): Word {
    Word(c.text, BBox(c.border.minX, c.border.minY, c.border.maxX, c.border.maxY))
  }

  /** `data.words.map(...)`: one entry per word, in the engine's order, each with
      the word's own text and its box coordinates passed through unchanged. */
  function Project(words: seq<Word>): (r: seq<TextCoordinate>)
    ensures |r| == |words|
    ensures forall i :: 0 <= i < |words| ==>
      r[i].text == words[i].text
      && r[i].border.minX == words[i].bbox.x0 && r[i].border.minY == words[i].bbox.y0
      && r[i].border.maxX == words[i].bbox.x1 && r[i].border.maxY == words[i].bbox.y1
  {
    if words == [] then [] else [ToCoordinate(words[0])] + Project(words[1..])
  }

  /** The inverse of `Project`: the reference against which it is checked. */
  function Unproject(coords: seq<TextCoordinate>): seq<Word> {
    if coords == [] then [] else [FromCoordinate(coords[0])] + Unproject(coords[1..])
  }

  /** No word is lost, added, reordered or altered: the projection can be undone. */
  lemma {:induction false} UnprojectProject(words: seq<Word>)
    ensures Unproject(Project(words)) == words
  {
    if words != [] {
      UnprojectProject(words[1..]);
      assert Project(words)[1..] == Project(words[1..]);
    }
  }

  /** Hence two recognitions with different word lists never give the same
      `textCoordinates`. */
  lemma ProjectInjective(a: seq<Word>, b: seq<Word>)
    requires Project(a) == Project(b)
    ensures a == b
  {
    UnprojectProject(a);
    UnprojectProject(b);
  }

  /** A box whose corners are in order. */
  predicate OrderedBox(b: BBox) {
    b.x0 <= b.x1 && b.y0 <= b.y1
  }

  /** A border whose corners are in order. */
  predicate OrderedBorder(b: Border) {
    b.minX <= b.maxX && b.minY <= b.maxY
  }

  /** The response has `minX <= maxX` and `minY <= maxY` for every word exactly when
      the engine's boxes were ordered: nothing is swapped or clamped on the way. */
  lemma ProjectKeepsBoxOrder(words: seq<Word>)
    ensures (forall i :: 0 <= i < |words| ==> OrderedBox(words[i].bbox))
        ==> (forall i :: 0 <= i < |Project(words)| ==> OrderedBorder(Project(words)[i].border))
    ensures (forall i :: 0 <= i < |Project(words)| ==> OrderedBorder(Project(words)[i].border))
        ==> (forall i :: 0 <= i < |words| ==> OrderedBox(words[i].bbox))
  {
    var r := Project(words);
    forall i | 0 <= i < |words|
      ensures OrderedBox(words[i].bbox) <==> OrderedBorder(r[i].border)
    {
    }
  }
}
