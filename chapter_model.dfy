/** The chapter schema of src/models/chapter.model.ts: required fields, the chapter type
    enum, embedded comments defaulting to none, and the optional video URL pattern. */
module ChapterModel {
  import opened Wrappers
  import opened Text
  import opened Tables
  import opened CommentModel

  /** The values the `type` path accepts. */
  const ChapterKinds: set<string> := {"Text", "Quiz", "Video"}

  /** A chapter as a request submits it; a path the request leaves out is None. */
  datatype ChapterInput = ChapterInput(
    chapterId: Option<string>,
    kind: Option<string>,
    title: Option<string>,
    content: Option<string>,
    comments: Option<seq<Comment>>,
    video: Option<string>)

  /** A chapter document after casting. A required string the input did not carry is the
      empty string here: the required validator refuses both alike. */
  datatype Chapter = Chapter(
    chapterId: string,
    kind: string,
    title: string,
    content: string,
    comments: seq<Comment>,
    video: Option<string>)

  /** Casting: title is trimmed, comments default to the empty list and each comment is
      cast in turn; everything else is kept as submitted. */
  function CastChapter(c: ChapterInput): (r: Chapter)
    ensures r.chapterId == c.chapterId.GetOr("") && r.kind == c.kind.GetOr("")
    ensures IsTrimOf(r.title, c.title.GetOr("")) && r.content == c.content.GetOr("")
    ensures c.comments.None? ==> r.comments == []
    ensures c.comments.Some? ==>
      && |r.comments| == |c.comments.value|
      && (forall k :: 0 <= k < |r.comments| ==> r.comments[k] == CastComment(c.comments.value[k]))
    ensures r.video == c.video
  {
    var comments := c.comments.GetOr([]);
    Chapter(
      c.chapterId.GetOr(""),
      c.kind.GetOr(""),
      Trim(c.title.GetOr("")),
      c.content.GetOr(""),
      seq(|comments|, k requires 0 <= k < |comments| => CastComment(comments[k])),
      c.video)
  }

  /** The validators of a cast chapter, including those of its embedded comments. */
  predicate ChapterValid(c: Chapter) {
    && c.chapterId != ""
    && c.kind in ChapterKinds
    && c.title != ""
    && c.content != ""
    && (forall k :: 0 <= k < |c.comments| ==> CommentValid(c.comments[k]))
    && VideoOk(c.video)
  }

  // ---------------------------------------------------------------- the video pattern

  /** [\da-z.-] */
  predicate HostChar(c: char) {
    ('0' <= c <= '9') || ('a' <= c <= 'z') || c == '.' || c == '-'
  }

  /** [a-z.] */
  predicate TldChar(c: char) {
    ('a' <= c <= 'z') || c == '.'
  }

  /** [/\w.-], where \w is [A-Za-z0-9_] */
  predicate PathChar(c: char) {
    c == '/' || ('A' <= c <= 'Z') || ('a' <= c <= 'z') || ('0' <= c <= '9') || c == '_' || c == '.' || c == '-'
  }

  /** s splits as host s[..i], a dot at i, a top-level part s[i+1..j] of 2 to 6
      characters, and a path s[j..]. The pattern's tail ([/\w.-]*)*\/? matches exactly the
      strings over [/\w.-]. */
  predicate UrlSplit(s: string, i: int, j: int) {
    && 0 < i < j <= |s|
    && s[i] == '.'
    && 2 <= j - i - 1 <= 6
    && (forall k :: 0 <= k < i ==> HostChar(s[k]))
    && (forall k :: i < k < j ==> TldChar(s[k]))
    && (forall k :: j <= k < |s| ==> PathChar(s[k]))
  }

  /** ([\da-z.-]+)\.([a-z.]{2,6})([/\w.-]*)*\/? matches all of s. */
  predicate UrlBody(s: string) {
    exists i, j :: 0 < i < j <= |s| && UrlSplit(s, i, j)
  }

  /** The anchored pattern ^(https?:\/\/)?…$: the optional scheme, then the body. */
  predicate VideoUrl(s: string) {
    || UrlBody(s)
    || (|s| >= 7 && s[..7] == "http://" && UrlBody(s[7..]))
    || (|s| >= 8 && s[..8] == "https://" && UrlBody(s[8..]))
  }

  /** The video validator: an absent or empty value passes; anything else must match. */
  predicate VideoOk(v: Option<string>) {
    v.None? || v.value == "" || VideoUrl(v.value)
  }

  /** s without a leading "http://" or "https://". */
  function AfterScheme(s: string): (r: string)
    ensures |s| >= 7 && s[..7] == "http://" ==> r == s[7..]
    ensures |s| >= 8 && s[..8] == "https://" ==> r == s[8..]
    ensures !(|s| >= 7 && s[..7] == "http://") && !(|s| >= 8 && s[..8] == "https://") ==> r == s
  {
    if |s| >= 8 && s[..8] == "https://" then
      assert s[..7][4] == 's';
      s[8..]
    else if |s| >= 7 && s[..7] == "http://" then s[7..]
    else s
  }

  /** Every character of a matching body is in [/\w.-], and its first is in [\da-z.-]. */
  lemma {:induction false} UrlBodyCharset(s: string)
    requires UrlBody(s)
    ensures |s| > 0 && HostChar(s[0])
    ensures forall k :: 0 <= k < |s| ==> PathChar(s[k])
  {
    var i, j :| 0 < i < j <= |s| && UrlSplit(s, i, j);
    assert HostChar(s[0]);
    forall k | 0 <= k < |s| ensures PathChar(s[k]) {
      if k < i {
        assert HostChar(s[k]);
      } else if k == i {
      } else if k < j {
        assert TldChar(s[k]);
      }
    }
  }

  /** A string with any character outside [/\w.-] is not a body: the contrapositive of
      UrlBodyCharset. */
  lemma {:induction false} OutsideCharsetRefused(s: string, k: int)
    requires 0 <= k < |s| && !PathChar(s[k])
    ensures !UrlBody(s)
  {
    forall i, j | 0 < i < j <= |s| ensures !UrlSplit(s, i, j) {
      assert !HostChar(s[k]) && !TldChar(s[k]) && s[k] != '.';
    }
  }

  /** The three alternatives of the pattern collapse to one: a string matches exactly
      when what follows its scheme is a matching body, since a body never contains ':'. */
  lemma {:induction false} VideoUrlIffBody(s: string)
    ensures VideoUrl(s) <==> UrlBody(AfterScheme(s))
  {
    if |s| >= 8 && s[..8] == "https://" {
      assert s[5] == s[..8][5] == ':';
      OutsideCharsetRefused(s, 5);
    } else if |s| >= 7 && s[..7] == "http://" {
      assert s[4] == s[..7][4] == ':';
      OutsideCharsetRefused(s, 4);
    }
  }

  /** The pattern has no case-insensitive flag: an upper-case scheme is refused. */
  lemma UpperCaseSchemeRefused()
    ensures !VideoUrl("HTTPS://cdn.io/a.mp4")
  {
    var s := "HTTPS://cdn.io/a.mp4";
    VideoUrlIffBody(s);
    assert s[..8] != "https://" by { assert s[0] != "https://"[0]; }
    assert s[..7] != "http://" by { assert s[0] != "http://"[0]; }
    OutsideCharsetRefused(s, 5);
  }

  /** The pattern leaves no room for a port number. */
  lemma PortRefused()
    ensures !VideoUrl("https://cdn.io:8080/a.mp4")
  {
    var s := "https://cdn.io:8080/a.mp4";
    VideoUrlIffBody(s);
    assert s[..8] == "https://";
    var b := s[8..];
    assert b[6] == ':';
    OutsideCharsetRefused(b, 6);
  }

  /** Nor for a query string. */
  lemma QueryRefused()
    ensures !VideoUrl("https://cdn.io/a.mp4?t=10")
  {
    var s := "https://cdn.io/a.mp4?t=10";
    VideoUrlIffBody(s);
    assert s[..8] == "https://";
    var b := s[8..];
    assert b[12] == '?';
    OutsideCharsetRefused(b, 12);
  }

  /** A host, a dot, a top-level part of 2 to 6 characters and a path form a body. */
  lemma BodyOfParts(host: string, tld: string, path: string)
    requires |host| > 0 && forall k :: 0 <= k < |host| ==> HostChar(host[k])
    requires 2 <= |tld| <= 6 && forall k :: 0 <= k < |tld| ==> TldChar(tld[k])
    requires forall k :: 0 <= k < |path| ==> PathChar(path[k])
    ensures UrlBody(host + "." + tld + path)
  {
    var s := host + "." + tld + path;
    var i, j := |host|, |host| + 1 + |tld|;
    assert forall k :: 0 <= k < i ==> s[k] == host[k];
    assert forall k :: i < k < j ==> s[k] == tld[k - i - 1];
    assert forall k :: j <= k < |s| ==> s[k] == path[k - j];
    assert UrlSplit(s, i, j);
  }

  /** A hosted video URL, with or without its scheme, is accepted. */
  lemma VideoUrlAccepts()
    ensures VideoOk(Some("https://cdn.io/intro.mp4"))
    ensures VideoOk(Some("cdn.io/intro.mp4"))
  {
    var body := "cdn.io/intro.mp4";
    BodyOfParts("cdn", "io", "/intro.mp4");
    assert "cdn" + "." + "io" + "/intro.mp4" == body;
    var s := "https://" + body;
    assert s == "https://cdn.io/intro.mp4";
    assert s[..8] == "https://" && s[8..] == body;
  }

  /** The video is optional: leaving it out or sending "" never makes a chapter invalid. */
  lemma NoVideoAccepted(c: ChapterInput)
    requires ChapterValid(CastChapter(c))
    ensures ChapterValid(CastChapter(c.(video := None)))
    ensures ChapterValid(CastChapter(c.(video := Some(""))))
  {
  }

  /** Chapters submitted without comments store none; whitespace-only titles are refused
      because trimming precedes the required check. */
  lemma {:induction false} ChapterDefaults(c: ChapterInput)
    ensures c.comments.None? ==> CastChapter(c).comments == []
    ensures c.title.Some? && AllWhitespace(c.title.value) ==> !ChapterValid(CastChapter(c))
  {
    TrimEmptyIffBlank(c.title.GetOr(""));
  }

  function ChapterKey(c: Chapter): string {
    c.chapterId
  }

  /** The chapter collection: every document valid, chapterId unique. */
  ghost predicate ChapterTableValid(rows: seq<Chapter>) {
    && (forall k :: 0 <= k < |rows| ==> ChapterValid(rows[k]))
    && UniqueBy(rows, ChapterKey)
  }

  const ChapterValidationFailed: string := "Chapter validation failed"

  /** Chapter.create: cast, validate, insert under the unique chapterId index. */
  function CreateChapter(rows: seq<Chapter>, c: ChapterInput): (r: Result<seq<Chapter>, string>)
    ensures r.Ok? <==> ChapterValid(CastChapter(c)) && !KeyTaken(rows, ChapterKey, c.chapterId.GetOr(""))
    ensures r.Ok? ==> r.value == rows + [CastChapter(c)]
  {
    var d := CastChapter(c);
    if !ChapterValid(d) then Err(ChapterValidationFailed) else Insert(rows, ChapterKey, d)
  }

  /** An accepted insert keeps the collection valid. */
  lemma {:induction false} CreateChapterKeepsValid(rows: seq<Chapter>, c: ChapterInput)
    requires ChapterTableValid(rows) && CreateChapter(rows, c).Ok?
    ensures ChapterTableValid(CreateChapter(rows, c).value)
  {
    InsertKeepsUnique(rows, ChapterKey, CastChapter(c));
  }
}
