/** `ReqClient.ConvertToCurlWithFiles`: the request rendered as a curl command line.

    Go map iteration order is unspecified, so the headers and the form fields are given as
    sequences in the order the loops visit them. The request body is text here. */
module Curl {
  import opened Wrappers
  import opened GoStrings

  datatype Header = Header(key: string, values: seq<string>)
  datatype FormField = FormField(key: string, value: string)
  datatype FileField = FileField(fieldName: string, filePath: string)

  /** The request body: absent (`nil`), readable with the given content, or failing to read. */
  datatype Body = NoBody | Readable(content: string) | Unreadable(error: string)

  datatype Request = Request(
    verb: string,
    url: string,
    headers: seq<Header>,
    formFields: seq<FormField>,
    files: seq<FileField>,
    body: Body)

  /** One curl option and its argument, e.g. `-H 'Accept: text/html'`. */
  datatype Flag = Flag(name: string, arg: string)

  /** The rendered command and the request as it is left afterwards. */
  datatype Rendered = Rendered(command: string, after: Request)

  const ContentType := "Content-Type"

  /** `'%s'`: the text between single quotes, with nothing escaped. */
  function Quote(s: string): (q: string)
    ensures |q| == |s| + 2 && q[0] == '\'' && q[|q| - 1] == '\''
    ensures q[1..|q| - 1] == s
  {
    "'" + s + "'"
  }

  /** The text between a leading and a trailing single quote. */
  function Unquote(t: string): Option<string>
  {
    if |t| >= 2 && t[0] == '\'' && t[|t| - 1] == '\'' then Some(t[1..|t| - 1]) else None
  }

  lemma UnquoteQuote(s: string)
    ensures Unquote(Quote(s)) == Some(s)
  {
  }

  function FlagsOfValues(key: string, values: seq<string>): (r: seq<Flag>)
    ensures |r| == |values|
    ensures forall j :: 0 <= j < |r| ==> r[j] == Flag("-H", Quote(key + ": " + values[j]))
  {
    if values == [] then [] else [Flag("-H", Quote(key + ": " + values[0]))] + FlagsOfValues(key, values[1..])
  }

  /** The number of header values that are rendered: all but those of Content-Type. */
  function RenderedValueCount(hs: seq<Header>): nat
  {
    if hs == [] then 0
    else (if hs[0].key == ContentType then 0 else |hs[0].values|) + RenderedValueCount(hs[1..])
  }

  /** One `-H 'Key: value'` per value of every header other than Content-Type, in order. */
  function HeaderFlags(hs: seq<Header>): (r: seq<Flag>)
    ensures |r| == RenderedValueCount(hs)
    ensures forall k :: 0 <= k < |r| ==> r[k].name == "-H"
  {
    if hs == [] then []
    else if hs[0].key == ContentType then HeaderFlags(hs[1..])
    else FlagsOfValues(hs[0].key, hs[0].values) + HeaderFlags(hs[1..])
  }

  /** The flags of one header: none for Content-Type, otherwise `-H 'Key: value'` for each of
      its values, in order. */
  lemma OneHeaderFlags(h: Header)
    ensures h.key == ContentType ==> HeaderFlags([h]) == []
    ensures h.key != ContentType ==> |HeaderFlags([h])| == |h.values|
    ensures h.key != ContentType ==>
      forall j :: 0 <= j < |h.values| ==> HeaderFlags([h])[j] == Flag("-H", Quote(h.key + ": " + h.values[j]))
  {
    assert [h][1..] == [];
  }

  /** The headers are rendered one after the other: the flags of a concatenation are the
      flags of its parts. With `OneHeaderFlags` this determines every flag. */
  lemma {:induction false} HeaderFlagsAppend(a: seq<Header>, b: seq<Header>)
    ensures HeaderFlags(a + b) == HeaderFlags(a) + HeaderFlags(b)
  {
    if a == [] {
      assert a + b == b;
    } else {
      assert (a + b)[0] == a[0];
      assert (a + b)[1..] == a[1..] + b;
      HeaderFlagsAppend(a[1..], b);
    }
  }

  /** Content-Type headers contribute nothing, wherever they are. */
  lemma {:induction false} ContentTypeSkipped(hs: seq<Header>, ct: seq<string>, more: seq<Header>)
    ensures HeaderFlags(hs + [Header(ContentType, ct)] + more) == HeaderFlags(hs + more)
  {
    if hs == [] {
      assert ([Header(ContentType, ct)] + more)[1..] == more;
      assert hs + [Header(ContentType, ct)] + more == [Header(ContentType, ct)] + more;
      assert hs + more == more;
    } else {
      assert (hs + [Header(ContentType, ct)] + more)[1..] == hs[1..] + [Header(ContentType, ct)] + more;
      assert (hs + more)[1..] == hs[1..] + more;
      ContentTypeSkipped(hs[1..], ct, more);
    }
  }

  /** One `-F 'key=value'` per form field, in order. */
  function FormFlags(fs: seq<FormField>): (r: seq<Flag>)
    ensures |r| == |fs|
    ensures forall k :: 0 <= k < |r| ==> r[k] == Flag("-F", Quote(fs[k].key + "=" + fs[k].value))
  {
    if fs == [] then [] else [Flag("-F", Quote(fs[0].key + "=" + fs[0].value))] + FormFlags(fs[1..])
  }

  /** One `-F 'field=@path'` per file, in order. */
  function FileFlags(files: seq<FileField>): (r: seq<Flag>)
    ensures |r| == |files|
    ensures forall k :: 0 <= k < |r| ==> r[k] == Flag("-F", Quote(files[k].fieldName + "=@" + files[k].filePath))
  {
    if files == [] then []
    else [Flag("-F", Quote(files[0].fieldName + "=@" + files[0].filePath))] + FileFlags(files[1..])
  }

  predicate HasMultipart(req: Request)
  {
    |req.formFields| > 0 || |req.files| > 0
  }

  /** Without form data, a body that reads as non-empty text is sent with `--data-raw`. */
  predicate SendsRawBody(req: Request)
  {
    !HasMultipart(req) && req.body.Readable? && req.body.content != ""
  }

  predicate HasDataRaw(fs: seq<Flag>)
  {
    exists k :: 0 <= k < |fs| && fs[k].name == "--data-raw"
  }

  /** The options after the URL; `Err` when the body has to be read and the read fails. */
  function Flags(req: Request): (r: Result<seq<Flag>>)
    ensures r.Err? <==> !HasMultipart(req) && req.body.Unreadable?
    ensures r.Err? ==> r.error == req.body.error
    ensures r.Ok? && HasMultipart(req) ==>
      r.value == HeaderFlags(req.headers) + FormFlags(req.formFields) + FileFlags(req.files)
    ensures r.Ok? ==> (HasDataRaw(r.value) <==> SendsRawBody(req))
    ensures r.Ok? && SendsRawBody(req) ==>
      r.value == HeaderFlags(req.headers) + [Flag("--data-raw", Quote(req.body.content))]
    ensures r.Ok? && !HasMultipart(req) && !SendsRawBody(req) ==> r.value == HeaderFlags(req.headers)
  {
    var hs := HeaderFlags(req.headers);
    if HasMultipart(req) then
      var fs := FormFlags(req.formFields) + FileFlags(req.files);
      assert forall k :: 0 <= k < |hs + fs| ==> (hs + fs)[k].name != "--data-raw" by {
        forall k | 0 <= k < |hs + fs|
          ensures (hs + fs)[k].name != "--data-raw"
        {
          if k >= |hs| {
            assert (hs + fs)[k] == fs[k - |hs|];
          }
        }
      }
      Ok(hs + fs)
    else
      match req.body
      case NoBody => Ok(hs)
      case Unreadable(e) => Err(e)
      case Readable(content) =>
        if content == "" then Ok(hs)
        else
          assert (hs + [Flag("--data-raw", Quote(content))])[|hs|] == Flag("--data-raw", Quote(content));
          Ok(hs + [Flag("--data-raw", Quote(content))])
  }

  /** The options written out as command-line words. */
  function FlagWords(fs: seq<Flag>): (r: seq<string>)
    ensures |r| == 2 * |fs|
    ensures forall k :: 0 <= k < |fs| ==> r[2 * k] == fs[k].name && r[2 * k + 1] == fs[k].arg
  {
    if fs == [] then []
    else
      var rest := FlagWords(fs[1..]);
      var r := [fs[0].name, fs[0].arg] + rest;
      assert forall k :: 1 <= k < |fs| ==> r[2 * k] == rest[2 * (k - 1)] && r[2 * k + 1] == rest[2 * (k - 1) + 1];
      r
  }

  /** The words of the command: `curl`, `-X METHOD` unless GET, the quoted URL, the options. */
  function CurlWords(req: Request): (r: Result<seq<string>>)
    ensures r.Err? <==> !HasMultipart(req) && req.body.Unreadable?
    ensures r.Ok? ==> |r.value| >= 2 && r.value[0] == "curl"
    ensures r.Ok? ==> (r.value[1] == "-X" <==> req.verb != "GET")
    ensures r.Ok? && req.verb != "GET" ==> |r.value| >= 4 && r.value[2] == req.verb && r.value[3] == Quote(req.url)
    ensures r.Ok? && req.verb == "GET" ==> r.value[1] == Quote(req.url)
  {
    match Flags(req)
    case Err(e) => Err(e)
    case Ok(fs) =>
      var head := if req.verb != "GET" then ["curl", "-X", req.verb] else ["curl"];
      Ok(head + [Quote(req.url)] + FlagWords(fs))
  }

  /** `ConvertToCurlWithFiles`: the words joined by single spaces. A body that was read is put
      back with the same content, so the request is left as it was. */
  function ConvertToCurlWithFiles(req: Request): (r: Result<Rendered>)
    ensures r.Err? <==> !HasMultipart(req) && req.body.Unreadable?
    ensures r.Ok? ==> r.value.after == req
    ensures r.Ok? ==> r.value.command == Join(CurlWords(req).value, " ")
  {
    match CurlWords(req)
    case Err(e) => Err(e)
    case Ok(words) =>
      var after := match req.body
        case Readable(content) => req.(body := Readable(content))
        case _ => req;
      Ok(Rendered(Join(words, " "), after))
  }

  /** What a command line says about a request: its method, its URL and its options. */
  datatype Parsed = Parsed(verb: string, url: string, flags: seq<Flag>)

  function ParseFlagWords(t: seq<string>): Option<seq<Flag>>
  {
    if t == [] then Some([])
    else if |t| < 2 then None
    else match ParseFlagWords(t[2..])
      case None => None
      case Some(rest) => Some([Flag(t[0], t[1])] + rest)
  }

  /** Reads the words back: `curl`, an optional `-X METHOD` (GET otherwise), the quoted URL,
      then option/argument pairs. */
  function ParseCurlWords(t: seq<string>): Option<Parsed>
  {
    if |t| < 2 || t[0] != "curl" then None
    else
      var (verb, urlAt) := if t[1] == "-X" && |t| >= 4 then (t[2], 3) else ("GET", 1);
      match (Unquote(t[urlAt]), ParseFlagWords(t[urlAt + 1..]))
      case (Some(url), Some(flags)) => Some(Parsed(verb, url, flags))
      case _ => None
  }

  lemma {:induction false} ParseFlagWordsInverts(fs: seq<Flag>)
    ensures ParseFlagWords(FlagWords(fs)) == Some(fs)
  {
    if fs != [] {
      var w := FlagWords(fs);
      assert w[2..] == FlagWords(fs[1..]);
      ParseFlagWordsInverts(fs[1..]);
      assert fs == [Flag(fs[0].name, fs[0].arg)] + fs[1..];
    }
  }

  /** Round trip: the command's words give back the method, the URL and exactly the options. */
  lemma CurlWordsRoundTrip(req: Request)
    requires CurlWords(req).Ok?
    ensures ParseCurlWords(CurlWords(req).value) == Some(Parsed(req.verb, req.url, Flags(req).value))
  {
    var fs := Flags(req).value;
    var t := CurlWords(req).value;
    UnquoteQuote(req.url);
    ParseFlagWordsInverts(fs);
    if req.verb != "GET" {
      assert t == ["curl", "-X", req.verb] + [Quote(req.url)] + FlagWords(fs);
      assert t[4..] == FlagWords(fs);
    } else {
      assert t == ["curl"] + [Quote(req.url)] + FlagWords(fs);
      assert t[2..] == FlagWords(fs);
    }
  }
}
