/** The comment schema of src/models/comment.model.ts: a comment as it is stored after
    Mongoose has cast it, the validators its save runs, and the unique index on commentId. */
module CommentModel {
  import opened Wrappers
  import opened Text
  import opened Tables

  const TextMaxLength: nat := 500

  /** A comment document. A required string the input did not carry is the empty string
      here: the required validator refuses both alike. */
  datatype Comment = Comment(commentId: string, userId: string, text: string)

  /** Assigning a comment to a document: the trim setter of `text` runs, nothing else
      changes. */
  function CastComment(c: Comment): (r: Comment)
    ensures r.commentId == c.commentId && r.userId == c.userId
    ensures IsTrimOf(r.text, c.text)
  {
    c.(text := Trim(c.text))
  }

  /** The validators of a cast comment: commentId and userId required, text required and
      between 1 and 500 UTF-16 units long. */
  predicate CommentValid(c: Comment) {
    && c.commentId != ""
    && c.userId != ""
    && 1 <= Utf16Length(c.text) <= TextMaxLength
  }

  /** A submitted comment is accepted exactly when both ids are present, its text is not
      blank, and the trimmed text fits in 500 UTF-16 units: trimming runs before the length
      checks. */
  lemma {:induction false} CommentAccepted(c: Comment)
    ensures CommentValid(CastComment(c)) <==>
      c.commentId != "" && c.userId != "" && !AllWhitespace(c.text) && Utf16Length(Trim(c.text)) <= TextMaxLength
  {
    TrimEmptyIffBlank(c.text);
  }

  /** So a comment whose text is only whitespace is refused, whatever its length. */
  lemma {:induction false} BlankCommentRefused(c: Comment)
    requires AllWhitespace(c.text)
    ensures !CommentValid(CastComment(c))
  {
    TrimEmptyIffBlank(c.text);
  }

  /** Casting a stored comment again changes nothing. */
  lemma {:induction false} CastCommentIdempotent(c: Comment)
    ensures CastComment(CastComment(c)) == CastComment(c)
  {
    TrimIdempotent(c.text);
  }

  function CommentKey(c: Comment): string {
    c.commentId
  }

  /** The comment collection: every document valid, commentId unique. */
  ghost predicate CommentTableValid(rows: seq<Comment>) {
    && (forall k :: 0 <= k < |rows| ==> CommentValid(rows[k]))
    && UniqueBy(rows, CommentKey)
  }

  /** Comment.create: cast, validate, insert under the unique commentId index. */
  function CreateComment(rows: seq<Comment>, c: Comment): (r: Result<seq<Comment>, string>)
    ensures r.Ok? <==> CommentValid(CastComment(c)) && !KeyTaken(rows, CommentKey, c.commentId)
    ensures r.Ok? ==> r.value == rows + [CastComment(c)]
  {
    var d := CastComment(c);
    if !CommentValid(d) then Err(CommentValidationFailed) else Insert(rows, CommentKey, d)
  }

  const CommentValidationFailed: string := "Comment validation failed"

  /** An accepted insert keeps the collection valid, and a second comment with the same
      commentId is refused. */
  lemma {:induction false} CreateCommentKeepsValid(rows: seq<Comment>, c: Comment, other: Comment)
    requires CommentTableValid(rows) && CreateComment(rows, c).Ok?
    requires other.commentId == c.commentId
    ensures CommentTableValid(CreateComment(rows, c).value)
    ensures CreateComment(CreateComment(rows, c).value, other).Err?
  {
    var d := CastComment(c);
    InsertKeepsUnique(rows, CommentKey, d);
    var r := rows + [d];
    assert r[|rows|] == d;
    assert KeyTaken(r, CommentKey, other.commentId);
  }
}
