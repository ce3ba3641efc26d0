/**
 * The request object of the word-count endpoint: an uploaded file, the text
 * read from it, and the number of words to return. `Validate` runs three
 * ordered checks and fills in the text from the file.
 */
module SearchParameter {
  import opened Common
  import opened Strings

  /** The number of words returned when the request does not say. */
  const DefaultLimit: int := 10

  const TextPlain: string := "text/plain"
  const WordDocx: string := "application/vnd.openxmlformats-officedocument.wordprocessingml.document"

  /** The content types an upload may declare: plain text and Word documents. */
  const AllowedContentTypes: seq<string> := [TextPlain, WordDocx]

  /** The line terminator `AppendLine` writes. */
  const NewLine: char := '\n'

  /**
   * An uploaded file: its declared content type (which may be absent) and the
   * lines a reader returns from its stream, without their terminators.
   */
  datatype FormFile = FormFile(contentType: Option<string>, lines: seq<string>)

  /** The validation failures, each naming what was wrong. */
  datatype ValidationError =
    | InvalidInput(name: string)
    | DisallowedContentType(contentType: string, allowed: seq<string>)

  /** Every line followed by a terminator, as the `StringBuilder` ends up holding. */
  function JoinLines(lines: seq<string>): string
    decreases |lines|
  {
    if lines == [] then "" else lines[0] + [NewLine] + JoinLines(lines[1..])
  }

  /** A content type is refused when it has a value that is not on the allowed list. */
  predicate ContentTypeRejected(contentType: Option<string>, hasValue: string -> bool) {
    HasValue(contentType, hasValue) && contentType.value !in AllowedContentTypes
  }

  /**
   * What `Validate` decides for a file: the first failing check's error, in
   * the order file, content type, text; otherwise the text read from the file.
   */
  function Validation(file: Option<FormFile>, hasValue: string -> bool): Result<string, ValidationError> {
    if file.None? then Failure(InvalidInput("File"))
    else if ContentTypeRejected(file.value.contentType, hasValue) then
      Failure(DisallowedContentType(file.value.contentType.value, AllowedContentTypes))
    else if !hasValue(JoinLines(file.value.lines)) then Failure(InvalidInput("Text"))
    else Success(JoinLines(file.value.lines))
  }

  // ---------------------------------------------------------------------
  // The line-joining read

  /** The joined suffix from line `i` starts with that line and its terminator. */
  lemma JoinLinesFrom(lines: seq<string>, i: nat)
    requires i < |lines|
    ensures JoinLines(lines[i..]) == lines[i] + [NewLine] + JoinLines(lines[i + 1..])
  {
    assert lines[i..][1..] == lines[i + 1..];
  }

  lemma AppendLineStep(done: string, line: string, later: string)
    ensures (done + line + [NewLine]) + later == done + (line + [NewLine] + later)
  {
  }

  /** Joining lines is joining them, plus one final empty piece, with the terminator. */
  lemma {:induction false} JoinLinesIsJoin(lines: seq<string>)
    ensures JoinLines(lines) == Join(lines + [""], NewLine)
    decreases |lines|
  {
    if lines != [] {
      JoinLinesIsJoin(lines[1..]);
      assert (lines + [""])[1..] == lines[1..] + [""];
    }
  }

  /**
   * The text can be cut back into the lines: splitting at terminators gives
   * every line, in order, then the empty piece after the last terminator.
   */
  lemma JoinLinesSplit(lines: seq<string>)
    requires forall l :: l in lines ==> NewLine !in l
    ensures Split(JoinLines(lines), NewLine) == lines + [""]
  {
    JoinLinesIsJoin(lines);
    SplitJoin(lines + [""], NewLine);
  }

  /** The text is empty exactly when the file has no lines; otherwise it ends in a terminator. */
  lemma {:induction false} JoinLinesEmpty(lines: seq<string>)
    ensures JoinLines(lines) == [] <==> lines == []
    ensures lines != [] ==> JoinLines(lines)[|JoinLines(lines)| - 1] == NewLine
    decreases |lines|
  {
    if lines != [] {
      JoinLinesEmpty(lines[1..]);
    }
  }

  // ---------------------------------------------------------------------
  // Properties of the ordered checks

  /** A missing file is reported first, whatever else the request holds. */
  lemma MissingFileFirst(hasValue: string -> bool)
    ensures Validation(None, hasValue) == Failure(InvalidInput("File"))
  {
  }

  /** Validation passes exactly when the file exists, its type is not refused and its text has a value; the text is then the joined lines. */
  lemma ValidationAccepts(file: Option<FormFile>, hasValue: string -> bool)
    ensures Validation(file, hasValue).Success? <==>
      file.Some? && !ContentTypeRejected(file.value.contentType, hasValue) && hasValue(JoinLines(file.value.lines))
    ensures Validation(file, hasValue).Success? ==> Validation(file, hasValue).value == JoinLines(file.value.lines)
  {
  }

  /** A content type without a value is never refused, so such an upload is judged on its text alone. */
  lemma ContentTypeWithoutValueAccepted(lines: seq<string>, contentType: Option<string>, hasValue: string -> bool)
    requires !HasValue(contentType, hasValue)
    ensures Validation(Some(FormFile(contentType, lines)), hasValue) ==
      if hasValue(JoinLines(lines)) then Success(JoinLines(lines)) else Failure(InvalidInput("Text"))
  {
  }

  /** Both listed content types pass the content-type check. */
  lemma AllowedTypesAccepted(contentType: string, hasValue: string -> bool)
    requires contentType == TextPlain || contentType == WordDocx
    ensures !ContentTypeRejected(Some(contentType), hasValue)
  {
  }

  /** A refused content type is reported before the file is read: the lines do not matter. */
  lemma RefusedTypeBeforeText(contentType: string, lines: seq<string>, hasValue: string -> bool)
    requires hasValue(contentType) && contentType !in AllowedContentTypes
    ensures Validation(Some(FormFile(Some(contentType), lines)), hasValue) ==
      Failure(DisallowedContentType(contentType, AllowedContentTypes))
  {
  }

  /** An empty upload of an allowed type fails on its text, since the empty string has no value. */
  lemma EmptyFileFailsOnText(contentType: Option<string>, hasValue: string -> bool)
    requires !ContentTypeRejected(contentType, hasValue)
    requires !hasValue("")
    ensures Validation(Some(FormFile(contentType, [])), hasValue) == Failure(InvalidInput("Text"))
  {
  }

  /** An accepted upload keeps every line: the text splits back into them. */
  lemma AcceptedTextKeepsLines(file: FormFile, hasValue: string -> bool)
    requires forall l :: l in file.lines ==> NewLine !in l
    requires Validation(Some(file), hasValue).Success?
    ensures Split(Validation(Some(file), hasValue).value, NewLine) == file.lines + [""]
  {
    JoinLinesSplit(file.lines);
  }

  /** The request parameters the controller binds from the form. */
  class WordCountSearchParameter {
    var text: Option<string>
    var file: Option<FormFile>
    var limit: int

    /** A fresh request for `file`, with no text yet and the default limit. */
    constructor (file: Option<FormFile>)
      ensures this.file == file && text.None? && limit == DefaultLimit
    {
      this.file := file;
      text := None;
      limit := DefaultLimit;
    }

    /** Reads every line of the file, appending each with its terminator. */
    method ReadFileStream() returns (result: string)
      requires file.Some?
      ensures result == JoinLines(file.value.lines)
    {
      var lines := file.value.lines;
      result := "";
      var i := 0;
      while i < |lines|
        invariant 0 <= i <= |lines|
        invariant result + JoinLines(lines[i..]) == JoinLines(lines)
      {
        JoinLinesFrom(lines, i);
        AppendLineStep(result, lines[i], JoinLines(lines[i + 1..]));
        result := result + lines[i] + [NewLine];
        i := i + 1;
      }
      assert lines[i..] == [];
    }

    /**
     * Runs the checks in order and, when the file passes the first two,
     * stores the text read from it. The outcome is `Validation`'s; the text is
     * assigned only once the file and its content type have passed, and the
     * limit and file are never touched.
     */
    method Validate(hasValue: string -> bool) returns (outcome: Result<string, ValidationError>)
      modifies this`text
      ensures outcome == Validation(file, hasValue)
      ensures limit == old(limit) && file == old(file)
      ensures file.None? || ContentTypeRejected(file.value.contentType, hasValue) ==> text == old(text)
      ensures file.Some? && !ContentTypeRejected(file.value.contentType, hasValue) ==>
        text == Some(JoinLines(file.value.lines))
    {
      if file.None? {
        return Failure(InvalidInput("File"));
      }
      var contentType := file.value.contentType;
      if HasValue(contentType, hasValue) && contentType.value !in AllowedContentTypes {
        return Failure(DisallowedContentType(contentType.value, AllowedContentTypes));
      }
      var read := ReadFileStream();
      text := Some(read);
      if !hasValue(read) {
        return Failure(InvalidInput("Text"));
      }
      outcome := Success(read);
    }
  }
}
