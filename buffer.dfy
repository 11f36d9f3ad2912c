/**
 * An in-memory stand-in for the host editor: the document text, the current
 * selection, and the three calls the engine makes on it (read a slice, read
 * the selection and length, delete a range).
 */
module Buffer {
  import opened Wrappers

  /** A selection: a caret when `length == 0`, a highlighted range otherwise. */
  datatype Range = Range(index: nat, length: nat)

  /** Who caused an edit: the person typing, or a program through the API. */
  datatype Source = User | Api | Silent

  /** The selection, if any, lies within a document of the given length. */
  predicate InDocument(selection: Option<Range>, length: nat)
  {
    selection.Some? ==> selection.value.index + selection.value.length <= length
  }

  /** `getText(index, length)`: the characters in `[index, index + length)`, cut off at the end of the document. */
  function Slice(text: string, index: nat, length: nat): (s: string)
    ensures |s| <= length
    ensures index + length <= |text| ==> |s| == length
    ensures index + length > |text| ==> |s| == (if index < |text| then |text| - index else 0)
  {
    if index + length <= |text| then text[index..index + length]
    else if index < |text| then text[index..]
    else []
  }

  /** The characters `getText` returns are the document's, read from `index` on. */
  lemma SliceReadsDocument(text: string, index: nat, length: nat)
    ensures forall i :: 0 <= i < |Slice(text, index, length)| ==> Slice(text, index, length)[i] == text[index + i]
  {
  }

  /** The document once the `length` characters from `index` are deleted. */
  function Delete(text: string, index: nat, length: nat): (r: string)
    requires index + length <= |text|
    ensures |r| == |text| - length
    ensures r[..index] == text[..index]
    ensures r[index..] == text[index + length..]
  {
    text[..index] + text[index + length..]
  }

  /** Where a position ends up when `length` characters from `index` are deleted before or around it. */
  function ShiftPosition(pos: nat, index: nat, length: nat): nat
  {
    if pos < index then pos else if pos < index + length then index else pos - length
  }

  /** The selection after `length` characters from `index` are deleted. */
  function ShiftSelection(selection: Option<Range>, index: nat, length: nat): (r: Option<Range>)
    ensures r.Some? <==> selection.Some?
  {
    match selection
    case None => None
    case Some(range) =>
      var start := ShiftPosition(range.index, index, length);
      var end := ShiftPosition(range.index + range.length, index, length);
      Some(Range(start, end - start))
  }

  class Editor {
    var text: string
    var selection: Option<Range>

    ghost predicate Valid()
      reads this
    {
      InDocument(selection, |text|)
    }

    constructor (text: string, selection: Option<Range>)
      requires InDocument(selection, |text|)
      ensures Valid() && this.text == text && this.selection == selection
    {
      this.text := text;
      this.selection := selection;
    }

    /** `deleteText(index, length, "api")`: removes exactly `[index, index + length)`. */
    method DeleteText(index: nat, length: nat)
      requires Valid() && index + length <= |text|
      modifies this
      ensures Valid()
      ensures text == Delete(old(text), index, length)
      ensures selection == ShiftSelection(old(selection), index, length)
    {
      text := Delete(text, index, length);
      selection := ShiftSelection(selection, index, length);
    }
  }
}
