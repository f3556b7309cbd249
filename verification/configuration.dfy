/**
 * GetConfiguration: the request body built from the parameter names, the
 * success rule for the HTTP exchange, and getConfig's scan of the response
 * text for name/value pairs.
 */
module Configuration {
  import opened Types
  import opened Text

  /** One parameter as getConfig extracts it; `value` is raw response text. */
  datatype Param = Param(name: string, value: string)

  const NameKey: string := "\"name\":"
  const ValueKey: string := "\"value\":"

  /** After the `"name":` found at p: the text between the next two quotes,
      and the position of the closing quote. */
  function ReadName(s: string, p: nat): (r: Option<(string, nat)>)
    requires IsAt(s, NameKey, p)
    ensures r.Some? ==> var (name, e) := r.value;
      p + 8 <= e < |s| && s[e] == '"' && NoChar(name, '"')
      && |name| + 1 <= e && name == s[e - |name|..e] && s[e - |name| - 1] == '"'
  {
    assert s[p..p + 7][6] == ':';
    match FindChar(s, '"', p + 6)
    case None => None
    case Some(q) =>
      match FindChar(s, '"', q + 1)
      case None => None
      case Some(e) =>
        FindCharIsFirst(s, '"', q + 1);
        Some((s[q + 1..e], e))
  }

  /** One iteration of getConfig's loop from the `"name":` at p: the name,
      then the raw text after the next `"value":` up to the next `}`, and the
      position of that `}`, where the next search starts. */
  function ReadEntry(s: string, p: nat): (r: Option<(Param, nat)>)
    requires IsAt(s, NameKey, p)
    ensures r.Some? ==> var (param, b) := r.value;
      p < b < |s| && s[b] == '}' && ValidParam(param)
      && |param.value| + 8 <= b && IsAt(s, ValueKey, b - |param.value| - 8)
      && param.value == s[b - |param.value|..b]
  {
    match ReadName(s, p)
    case None => None
    case Some((name, e)) =>
      match Find(s, ValueKey, e)
      case None => None
      case Some(v) =>
        match FindChar(s, '}', v + 8)
        case None => None
        case Some(b) =>
          FindCharIsFirst(s, '}', v + 8);
          assert b - |s[v + 8..b]| - 8 == v && IsAt(s, ValueKey, v);
          assert NoChar(s[v + 8..b], '}');
          Some((Param(name, s[v + 8..b]), b))
  }

  /** ReadName follows the source's two quote searches: the name opens at
      the first quote after the key's colon and closes at the first quote
      after that; where no such pair of quotes exists no name is read. */
  lemma ReadNameIsNextQuotes(s: string, p: nat)
    requires IsAt(s, NameKey, p)
    ensures ReadName(s, p).Some? ==>
      var (name, e) := ReadName(s, p).value;
      && p + 6 <= e - |name| - 1 && s[e - |name| - 1] == '"'
      && (forall j :: p + 6 <= j < e - |name| - 1 ==> s[j] != '"')
      && name == s[e - |name|..e] && NoChar(name, '"') && s[e] == '"'
    ensures ReadName(s, p).None? ==>
      forall j, k :: p + 6 <= j < k < |s| && s[j] == '"' ==> s[k] != '"'
  {
    FindCharIsFirst(s, '"', p + 6);
    match FindChar(s, '"', p + 6)
    case None =>
    case Some(q) => FindCharIsFirst(s, '"', q + 1);
  }

  /** ReadEntry follows the source's searches after the name: the value
      starts after the first `"value":` past the name's closing quote and
      ends at the first `}` after it. */
  lemma ReadEntryIsNextKeys(s: string, p: nat)
    requires IsAt(s, NameKey, p)
    ensures ReadEntry(s, p).Some? ==> ReadName(s, p).Some?
    ensures ReadEntry(s, p).Some? && ReadName(s, p).Some? ==>
      var (param, b) := ReadEntry(s, p).value;
      var e := ReadName(s, p).value.1;
      var v := b - |param.value| - 8;
      && param.name == ReadName(s, p).value.0
      && e <= v && IsAt(s, ValueKey, v) && (forall j :: e <= j < v ==> !IsAt(s, ValueKey, j))
      && param.value == s[v + 8..b] && NoChar(param.value, '}') && s[b] == '}'
  {
    match ReadName(s, p)
    case None =>
    case Some((name, e)) =>
      FindIsFirst(s, ValueKey, e);
      match Find(s, ValueKey, e)
      case None =>
      case Some(v) =>
        match FindChar(s, '}', v + 8)
        case None =>
        case Some(b) =>
          assert ReadEntry(s, p) == Some((Param(name, s[v + 8..b]), b));
  }

  /** Where the name is read but the value key or the brace after it is
      missing, ReadEntry reads no pair. */
  lemma ReadEntryMissingKeys(s: string, p: nat)
    requires IsAt(s, NameKey, p)
    ensures ReadEntry(s, p).None? && ReadName(s, p).Some? ==>
      var e := ReadName(s, p).value.1;
      || (forall j :: e <= j ==> !IsAt(s, ValueKey, j))
      || (Find(s, ValueKey, e).Some?
          && forall j :: Find(s, ValueKey, e).value + 8 <= j < |s| ==> s[j] != '}')
  {
    if ReadName(s, p).Some? {
      var e := ReadName(s, p).value.1;
      FindIsFirst(s, ValueKey, e);
      if Find(s, ValueKey, e).Some? {
        FindCharIsFirst(s, '}', Find(s, ValueKey, e).value + 8);
      }
    }
  }

  /** The loop's search for the next `"name":` at or after `from`. */
  function NextKey(s: string, from: nat): (r: Option<nat>)
    ensures r.Some? ==> from <= r.value && IsAt(s, NameKey, r.value)
  {
    Find(s, NameKey, from)
  }

  /** getConfig's loop from position `from`, with a failed search inside an
      entry ending the loop: one pair per `"name":` it finds, in order. */
  function ParseFrom(s: string, from: nat): (r: seq<Param>)
    ensures NextKey(s, from).None? ==> r == []
    ensures forall i :: 0 <= i < |r| ==> ValidParam(r[i])
    decreases |s| - from
  {
    match NextKey(s, from)
    case None => []
    case Some(p) =>
      match ReadEntry(s, p)
      case None => []
      case Some((param, b)) => [param] + ParseFrom(s, b)
  }

  /** Every search of the loop from `from` succeeds: no entry is cut short. */
  predicate WellFormed(s: string, from: nat)
    decreases |s| - from
  {
    match NextKey(s, from)
    case None => true
    case Some(p) =>
      match ReadEntry(s, p)
      case None => false
      case Some((_, b)) => WellFormed(s, b)
  }

  /** The scan of a whole response. */
  function ParseResponse(response: string): seq<Param>
  {
    ParseFrom(response, 0)
  }

  /** A parameter that the response format can carry unambiguously: its name
      has no quote and its value no closing brace. */
  predicate ValidParam(p: Param)
  {
    NoChar(p.name, '"') && NoChar(p.value, '}')
  }

  // ---------------------------------------------------------------------
  // The outbound request

  /** A name that the JSON serialiser writes verbatim between quotes. */
  predicate Plain(name: string)
  {
    forall i :: 0 <= i < |name| ==> name[i] != '"' && name[i] != '\\' && name[i] >= ' '
  }

  const RequestHead: string := "{\"paramList\":["
  const RequestTail: string := "]}"

  /** How an entry opens: the brace, the name key and the name's opening
      quote. */
  const NameOpen: string := "{\"name\":\""

  function RequestEntry(name: string): string
  {
    NameOpen + name + "\"}"
  }

  /** The total length of the names. */
  function NameChars(names: seq<string>): nat
  {
    if |names| == 0 then 0 else |names[0]| + NameChars(names[1..])
  }

  /** The entries, comma-separated: eleven characters of framing around
      each name and one comma between neighbours. */
  function RequestEntries(names: seq<string>): (r: string)
    ensures |r| == if |names| == 0 then 0 else NameChars(names) + 12 * |names| - 1
  {
    if |names| == 0 then ""
    else if |names| == 1 then RequestEntry(names[0])
    else RequestEntry(names[0]) + "," + RequestEntries(names[1..])
  }

  /** The body GetConfiguration posts: {"paramList":[{"name":n1},...]} with
      the names in input order. */
  function BuildRequest(names: seq<string>): (r: string)
    requires forall i :: 0 <= i < |names| ==> Plain(names[i])
    ensures |r| == if |names| == 0 then 16 else NameChars(names) + 12 * |names| + 15
    ensures r[..|RequestHead|] == RequestHead && r[|r| - |RequestTail|..] == RequestTail
  {
    RequestHead + RequestEntries(names) + RequestTail
  }

  /** Reads the names back out of a request body, the way getConfig reads
      names out of a response. */
  function ScanNames(s: string, from: nat): seq<string>
    decreases |s| - from
  {
    match NextKey(s, from)
    case None => []
    case Some(p) =>
      match ReadName(s, p)
      case None => []
      case Some((name, e)) => [name] + ScanNames(s, e)
  }

  // ---------------------------------------------------------------------
  // The exchange and its success rule

  /** What the HTTP exchange yields. NoHandle: curl_easy_init failed, so the
      result stays CURLE_OK, the HTTP code stays 0 and no response arrives. */
  datatype Transport = NoHandle | Performed(curlCode: int, httpCode: int, response: string)

  const CurleOk: int := 0

  /** getConfig's success test: transport OK and HTTP code 0 or 200. */
  predicate Succeeded(t: Transport)
    ensures t.NoHandle? ==> Succeeded(t)
    ensures t.Performed? && t.curlCode != CurleOk ==> !Succeeded(t)
    ensures t.Performed? && t.httpCode != 0 && t.httpCode != 200 ==> !Succeeded(t)
  {
    t.NoHandle? || (t.curlCode == CurleOk && (t.httpCode == 0 || t.httpCode == 200))
  }

  function ResponseText(t: Transport): string
  {
    if t.NoHandle? then "" else t.response
  }

  /** getConfig: Some(list) where the source returns 0, None where it
      returns -1. */
  function GetConfig(t: Transport): (r: Option<seq<Param>>)
    ensures r.Some? <==> Succeeded(t)
    ensures r.Some? ==> r.value == ParseResponse(ResponseText(t))
    ensures t.NoHandle? ==> r == Some([])
  {
    if Succeeded(t) then Some(ParseResponse(ResponseText(t))) else None
  }

  /** The call's code, its success flag and the paramList out-parameter
      (None where the source leaves it unset). */
  datatype ConfigReply = ConfigReply(code: HResult, success: bool, paramList: Option<seq<Param>>)

  /** GetConfiguration: posts the request built from `names` through
      `exchange` and reports the parsed pairs, or fails as a whole. */
  function GetConfiguration(names: seq<string>, exchange: string -> Transport): (r: ConfigReply)
    requires forall i :: 0 <= i < |names| ==> Plain(names[i])
    ensures r.success <==> Succeeded(exchange(BuildRequest(names)))
    ensures r.success ==> r.code == ErrorNone
    ensures r.success ==> r.paramList == Some(ParseResponse(ResponseText(exchange(BuildRequest(names)))))
    ensures !r.success ==> r.code == ErrorGeneral && r.paramList == None
  {
    match GetConfig(exchange(BuildRequest(names)))
    case Some(list) => ConfigReply(ErrorNone, true, Some(list))
    case None => ConfigReply(ErrorGeneral, false, None)
  }
}
