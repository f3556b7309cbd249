/**
 * The decoder status values, their names in the decoderStatusStr table, the
 * notification payload built from them, and the synchronous status read.
 */
module DecoderStatus {
  import opened Types

  /** A status reported by the resource manager. The source indexes a raw
      four-entry array with it, whose last entry is NULL, so only 0 (idle),
      1 (paused) and 2 (active) name a status. */
  type StatusCode = x: int | 0 <= x <= 2

  /** EssRMgrRes_idle: the poll loop's initial lastStatus and the value
      reported when the resource manager is compiled out. */
  const Idle: StatusCode := 0

  /** The decoderStatusStr table (its trailing NULL sentinel is not indexable
      by a StatusCode). */
  const DecoderStatusStr: seq<string> := ["IDLE", "PAUSED", "ACTIVE"]

  /** Name of a status: decoderStatusStr[status]. */
  function StatusName(status: StatusCode): (name: string)
    ensures NameToStatus(name) == Some(status)
    ensures name != []
  {
    DecoderStatusStr[status]
  }

  /** Independent inverse of the table: the status a name denotes, if any. */
  function NameToStatus(name: string): (r: Option<StatusCode>)
    ensures r == Some(0) <==> name == "IDLE"
    ensures r == Some(1) <==> name == "PAUSED"
    ensures r == Some(2) <==> name == "ACTIVE"
  {
    if name == "IDLE" then Some(0)
    else if name == "PAUSED" then Some(1)
    else if name == "ACTIVE" then Some(2)
    else None
  }

  /** Distinct statuses have distinct names, and a name decodes only to the
      status that produced it. */
  lemma StatusNameInjective(a: StatusCode, b: StatusCode)
    ensures StatusName(a) == StatusName(b) <==> a == b
  {
    if StatusName(a) == StatusName(b) {
      assert NameToStatus(StatusName(a)) == Some(b);
    }
  }

  const PayloadPrefix: string := "{\"avDecoderStatusChange\":\""
  const PayloadSuffix: string := "\"}"

  /** The string every sink receives from onDecoderStatusChange: the JSON
      object {"avDecoderStatusChange": name} in its serialised form. */
  function Payload(status: StatusCode): (p: string)
    ensures PayloadStatus(p) == Some(status)
    ensures |p| == |PayloadPrefix| + |StatusName(status)| + |PayloadSuffix|
  {
    var p := PayloadPrefix + StatusName(status) + PayloadSuffix;
    assert p[..|PayloadPrefix|] == PayloadPrefix;
    assert p[|p| - |PayloadSuffix|..] == PayloadSuffix;
    assert p[|PayloadPrefix|..|p| - |PayloadSuffix|] == StatusName(status);
    p
  }

  /** Reads a payload back: the status named under avDecoderStatusChange. */
  function PayloadStatus(p: string): (r: Option<StatusCode>)
    ensures r.Some? ==> |p| > |PayloadPrefix| + |PayloadSuffix|
    ensures r.Some? ==> p[..|PayloadPrefix|] == PayloadPrefix
  {
    if |p| < |PayloadPrefix| + |PayloadSuffix| then None
    else if p[..|PayloadPrefix|] != PayloadPrefix then None
    else if p[|p| - |PayloadSuffix|..] != PayloadSuffix then None
    else NameToStatus(p[|PayloadPrefix|..|p| - |PayloadSuffix|])
  }

  /** Two notifications carry the same payload exactly when they report the
      same status. */
  lemma PayloadInjective(a: StatusCode, b: StatusCode)
    ensures Payload(a) == Payload(b) <==> a == b
  {
    if Payload(a) == Payload(b) {
      assert PayloadStatus(Payload(a)) == Some(b);
    }
  }

  /** getMostActiveDecoderStatus: the resource manager's report when it is
      compiled in, otherwise the initial 0. */
  function MostActiveDecoderStatus(ermEnabled: bool, reported: StatusCode): (s: StatusCode)
    ensures ermEnabled ==> s == reported
    ensures !ermEnabled ==> s == Idle
  {
    if ermEnabled then reported else 0
  }

  /** The AvDecoderStatusResult out-parameter together with the call's code. */
  datatype StatusReply = StatusReply(code: HResult, avDecoderStatus: string)

  /** GetAVDecoderStatus: reads the source afresh on every call (there is no
      cached copy of the poll loop's lastStatus) and always succeeds. */
  function GetAVDecoderStatus(ermEnabled: bool, reported: StatusCode): (r: StatusReply)
    ensures r.code == ErrorNone
    ensures ermEnabled ==> NameToStatus(r.avDecoderStatus) == Some(reported)
    ensures !ermEnabled ==> r.avDecoderStatus == "IDLE"
  {
    if ermEnabled then StatusReply(ErrorNone, StatusName(MostActiveDecoderStatus(ermEnabled, reported)))
    else StatusReply(ErrorNone, DecoderStatusStr[0])
  }
}
