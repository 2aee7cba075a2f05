/** What reading a file can come to, what a tool reply can come to, and the
    file resource of server.py (read_file_resource), which turns every
    outcome of a read into text and never lets an exception escape. */
module Resources {
  import opened Text

  /** The outcome of opening and reading a file as UTF-8 text: its contents,
      FileNotFoundError, or any other exception with its message `str(e)`. */
  datatype ReadOutcome = Ok(content: string) | NotFound | OtherError(message: string)

  /** What a tool returns to the client: a text, or an exception that
      propagates out of the tool. */
  datatype Reply = Returned(text: string) | Raised

  /** The outcome of an operation that either gives a value or fails, such
      as listing a directory. */
  datatype Option<T> = None | Some(value: T)

  const ErrorPrefix: string := "错误："
  const MissingFilePrefix: string := "错误：文件 '"
  const MissingFileSuffix: string := "' 不存在"

  /** read_file_resource(path) given how the read of `path` went: the contents
      unchanged, or an error text that starts with `错误：`; for a missing file
      the text carries the path verbatim, for any other failure it is the
      prefix followed by the exception's message. */
  function ReadFileResource(path: string, outcome: ReadOutcome): (r: string)
    ensures outcome.Ok? ==> r == outcome.content
    ensures !outcome.Ok? ==> HasAt(r, 0, ErrorPrefix)
    ensures outcome.NotFound? ==>
      HasAt(r, 0, MissingFilePrefix) && HasAt(r, |MissingFilePrefix|, path)
      && |r| == |MissingFilePrefix| + |path| + |MissingFileSuffix|
    ensures outcome.OtherError? ==> r[|ErrorPrefix|..] == outcome.message
  {
    match outcome
    case Ok(content) => content
    case NotFound => MissingFilePrefix + path + MissingFileSuffix
    case OtherError(message) => ErrorPrefix + message
  }

  /** The missing-file text names the path exactly: different paths give
      different texts. */
  lemma {:induction false} MissingFileNamesPath(p: string, q: string)
    requires ReadFileResource(p, NotFound) == ReadFileResource(q, NotFound)
    ensures p == q
  {
    var r := ReadFileResource(p, NotFound);
    assert r[|MissingFilePrefix|..|MissingFilePrefix| + |p|] == p;
    assert r[|MissingFilePrefix|..|MissingFilePrefix| + |q|] == q;
  }
}
