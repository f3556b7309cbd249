/**
 * getConfig's response loop exactly as written: std::string searches that
 * answer npos, and size_t arithmetic that wraps, with nothing stopping the
 * loop once a search inside an entry fails. The corrected scan
 * (Configuration.ParseFrom) is what the rest of the model uses; this module
 * relates the two.
 */
module GetConfigLoop {
  import opened Types
  import opened Text
  import opened Configuration

  /** std::string::npos, the largest 64-bit size_t. */
  const Npos: nat := 0xFFFF_FFFF_FFFF_FFFF

  /** size_t arithmetic: a result within one turn of the 2^64 range,
      taken modulo 2^64, that is, the one value of the range that differs
      from it by a multiple of 2^64. */
  function Wrap(x: int): (r: nat)
    requires -0x1_0000_0000_0000_0000 <= x < 0x2_0000_0000_0000_0000
    ensures r <= Npos
    ensures r == x || r == x + 0x1_0000_0000_0000_0000 || r == x - 0x1_0000_0000_0000_0000
  {
    if x < 0 then x + 0x1_0000_0000_0000_0000
    else if x > Npos then x - 0x1_0000_0000_0000_0000
    else x
  }

  /** std::string::find, answering npos where the search fails. */
  function FindPos(s: string, pat: string, from: nat): (r: nat)
    requires |s| < Npos
    ensures r == Npos <==> Find(s, pat, from).None?
    ensures r != Npos ==> r + |pat| <= |s| && Find(s, pat, from) == Some(r)
  {
    match Find(s, pat, from)
    case None => Npos
    case Some(i) => i
  }

  /** std::string::find with a one-character pattern, answering npos where
      the search fails; Text.FindCharIsFind shows it is the general search
      on that one-character string. */
  function CharPos(s: string, c: char, from: nat): (r: nat)
    requires |s| < Npos
    ensures r == Npos <==> FindChar(s, c, from).None?
    ensures r != Npos ==> from <= r < |s| && s[r] == c && FindChar(s, c, from) == Some(r)
  {
    match FindChar(s, c, from)
    case None => Npos
    case Some(i) => i
  }

  /** Below 2^64, size_t arithmetic is exact. */
  lemma WrapExact(x: int)
    requires 0 <= x <= Npos
    ensures Wrap(x) == x
  {
  }

  /** npos + k wraps round to k - 1. */
  lemma WrapPastNpos(k: nat)
    requires 0 < k <= Npos
    ensures Wrap(Npos + k) == k - 1
  {
  }

  /** std::string::substr(pos, len): at most len characters from pos; pos
      past the end would throw, which the loop never reaches. */
  function Substr(s: string, pos: nat, len: nat): (r: string)
    requires pos <= |s|
    ensures |r| <= len && pos + |r| <= |s|
    ensures |r| == len || pos + |r| == |s|
    ensures r == s[pos..pos + |r|]
  {
    if len <= |s| - pos then s[pos..pos + len] else s[pos..]
  }

  /** The name half of an iteration from the `"name":` at p, as written:
      the text after the next quote up to the one after it, and where that
      second search stopped. */
  function NameAsWritten(s: string, p: nat): (r: (string, nat))
    requires |s| < Npos && IsAt(s, NameKey, p)
    ensures r.1 == Npos || (r.1 < |s| && s[r.1] == '"')
    ensures FindChar(s, '"', p + 6).Some? && FindChar(s, '"', FindChar(s, '"', p + 6).value + 1).Some? ==>
      var q0 := FindChar(s, '"', p + 6).value;
      var e := FindChar(s, '"', q0 + 1).value;
      r == (s[q0 + 1..e], e)
  {
    var q := Wrap(CharPos(s, '"', p + 6) + 1);
    var e := CharPos(s, '"', q);
    (Substr(s, q, Wrap(e - q)), e)
  }

  /** The value half, from the position e where the name search stopped:
      the text after the next `"value":` up to the next brace, and where
      that brace search stopped. */
  function ValueAsWritten(s: string, e: nat): (r: (string, nat))
    requires |s| < Npos && 7 <= |s|
    ensures r.1 == Npos || r.1 < |s|
    ensures r.1 != Npos ==> s[r.1] == '}'
  {
    var v := Wrap(FindPos(s, ValueKey, e) + 8);
    var b := CharPos(s, '}', v);
    (Substr(s, v, Wrap(b - v)), b)
  }

  /** One iteration from the `"name":` found at p, as written: the pair it
      pushes and the position the next search starts from. */
  function StepAsWritten(s: string, p: nat): (r: (Param, nat))
    requires |s| < Npos && IsAt(s, NameKey, p)
    ensures r.1 == Npos || r.1 < |s|
    ensures r.1 != Npos ==> s[r.1] == '}'
  {
    var (name, e) := NameAsWritten(s, p);
    var (value, b) := ValueAsWritten(s, e);
    (Param(name, value), b)
  }

  /** The loop as written from position `end`, run for at most `fuel`
      iterations: Some(pairs) once the key search fails, None while it
      is still going. */
  function LoopAsWritten(s: string, end: nat, fuel: nat): (r: Option<seq<Param>>)
    requires |s| < Npos
    ensures r.Some? ==> fuel > 0 && |r.value| < fuel
    decreases fuel
  {
    if fuel == 0 then None
    else
      var p := FindPos(s, NameKey, end);
      if p == Npos then Some([])
      else
        var (param, b) := StepAsWritten(s, p);
        match LoopAsWritten(s, b, fuel - 1)
        case None => None
        case Some(rest) => Some([param] + rest)
  }

  /** The written name half once both quote searches are known. */
  lemma NameFound(s: string, p: nat, q0: nat, e: nat)
    requires |s| < Npos && IsAt(s, NameKey, p)
    requires FindChar(s, '"', p + 6) == Some(q0) && FindChar(s, '"', q0 + 1) == Some(e)
    ensures NameAsWritten(s, p) == (s[q0 + 1..e], e)
  {
  }

  /** The written value half once the value key and the brace are found. */
  lemma ValueFound(s: string, e: nat, v0: nat, b: nat)
    requires |s| < Npos && 7 <= |s|
    requires Find(s, ValueKey, e) == Some(v0) && FindChar(s, '}', v0 + 8) == Some(b)
    ensures ValueAsWritten(s, e) == (s[v0 + 8..b], b)
  {
    assert FindPos(s, ValueKey, e) == v0;
    WrapExact(v0 + 8);
    assert CharPos(s, '}', v0 + 8) == b;
    WrapExact(b - (v0 + 8));
    assert Substr(s, v0 + 8, b - (v0 + 8)) == s[v0 + 8..b];
  }

  /** The written value half when no value key follows: the brace search
      starts at 7, npos + 8 wrapped round. */
  lemma ValueMissing(s: string, e: nat)
    requires |s| < Npos && 7 <= |s| && Find(s, ValueKey, e).None?
    ensures ValueAsWritten(s, e).1 == CharPos(s, '}', 7)
    ensures ValueAsWritten(s, e).0 == Substr(s, 7, Wrap(CharPos(s, '}', 7) - 7))
  {
    WrapPastNpos(8);
  }

  /** The two quote searches of a name that the corrected scan reads. */
  lemma NameSearchesSucceed(s: string, p: nat) returns (q0: nat, e: nat)
    requires IsAt(s, NameKey, p) && ReadName(s, p).Some?
    ensures FindChar(s, '"', p + 6) == Some(q0) && FindChar(s, '"', q0 + 1) == Some(e)
    ensures ReadName(s, p) == Some((s[q0 + 1..e], e))
  {
    assert s[p..p + 7][6] == ':';
    q0 := FindChar(s, '"', p + 6).value;
    e := FindChar(s, '"', q0 + 1).value;
  }

  /** The four searches of an entry that the corrected scan reads in full,
      and the positions they stop at. */
  lemma EntrySearchesSucceed(s: string, p: nat) returns (q0: nat, e: nat, v0: nat, b: nat)
    requires IsAt(s, NameKey, p) && ReadEntry(s, p).Some?
    ensures FindChar(s, '"', p + 6) == Some(q0) && FindChar(s, '"', q0 + 1) == Some(e)
    ensures Find(s, ValueKey, e) == Some(v0) && FindChar(s, '}', v0 + 8) == Some(b)
    ensures ReadEntry(s, p) == Some((Param(s[q0 + 1..e], s[v0 + 8..b]), b))
  {
    q0, e := NameSearchesSucceed(s, p);
    v0 := Find(s, ValueKey, e).value;
    b := FindChar(s, '}', v0 + 8).value;
  }

  /** Where every search of an entry succeeds, the written iteration reads
      the same pair and stops at the same brace as the corrected one. */
  lemma StepAgrees(s: string, p: nat)
    requires |s| < Npos && IsAt(s, NameKey, p) && ReadEntry(s, p).Some?
    ensures StepAsWritten(s, p) == ReadEntry(s, p).value
  {
    var q0, e, v0, b := EntrySearchesSucceed(s, p);
    NameFound(s, p, q0, e);
    ValueFound(s, e, v0, b);
  }

  /** Where the corrected scan from `from` reads its next entry in full:
      the pair it reads and the brace it stops at. */
  function NextEntry(s: string, from: nat): (r: (Param, nat))
    requires NextKey(s, from).Some? && ReadEntry(s, NextKey(s, from).value).Some?
    ensures from < r.1 < |s|
  {
    ReadEntry(s, NextKey(s, from).value).value
  }

  /** A well-formed scan that finds a key reads that entry in full and stays
      well formed after it. */
  lemma ScanStep(s: string, from: nat)
    requires WellFormed(s, from) && NextKey(s, from).Some?
    ensures ReadEntry(s, NextKey(s, from).value).Some?
    ensures WellFormed(s, NextEntry(s, from).1)
    ensures ParseFrom(s, from) == [NextEntry(s, from).0] + ParseFrom(s, NextEntry(s, from).1)
  {
  }

  /** Where the next turn of a well-formed scan starts, still well formed. */
  lemma NextStop(s: string, from: nat) returns (b: nat)
    requires WellFormed(s, from) && NextKey(s, from).Some?
    ensures ReadEntry(s, NextKey(s, from).value).Some? && b == NextEntry(s, from).1
    ensures from < b < |s| && WellFormed(s, b)
  {
    ScanStep(s, from);
    b := NextEntry(s, from).1;
  }

  /** One turn on which both loops read the same entry. */
  lemma AgreeStep(s: string, from: nat, fuel: nat)
    requires |s| < Npos && fuel > 0 && WellFormed(s, from) && NextKey(s, from).Some?
    requires LoopAsWritten(s, NextEntry(s, from).1, fuel - 1) == Some(ParseFrom(s, NextEntry(s, from).1))
    ensures LoopAsWritten(s, from, fuel) == Some(ParseFrom(s, from))
  {
    ScanStep(s, from);
    StepAgrees(s, NextKey(s, from).value);
  }

  /** Where no key is left, both loops stop with nothing more. */
  lemma LoopEnds(s: string, from: nat, fuel: nat)
    requires |s| < Npos && fuel > 0 && NextKey(s, from).None?
    ensures LoopAsWritten(s, from, fuel) == Some(ParseFrom(s, from))
  {
  }

  /** On a well-formed response the loop as written finishes, with exactly
      the pairs of the corrected scan, given one iteration per character. */
  lemma {:induction false} LoopAgrees(s: string, from: nat, fuel: nat)
    requires |s| < Npos && WellFormed(s, from)
    requires fuel > 0 && from + fuel > |s|
    ensures LoopAsWritten(s, from, fuel) == Some(ParseFrom(s, from))
    decreases fuel
  {
    if NextKey(s, from).Some? {
      var b := NextStop(s, from);
      LoopAgrees(s, b, fuel - 1);
      AgreeStep(s, from, fuel);
    } else {
      LoopEnds(s, from, fuel);
    }
  }

  /** A position the loop comes back to: the iteration over the first key
      found from it starts the next search at that same position. */
  predicate Fixpoint(s: string, end: nat)
    requires |s| < Npos
  {
    FindPos(s, NameKey, end) != Npos && StepAsWritten(s, FindPos(s, NameKey, end)).1 == end
  }

  /** From such a position the loop never finishes, whatever the number of
      iterations it is given, pushing one more pair each time round. */
  lemma {:induction false} FixpointNeverFinishes(s: string, end: nat, fuel: nat)
    requires |s| < Npos && Fixpoint(s, end)
    ensures LoopAsWritten(s, end, fuel) == None
    decreases fuel
  {
    if fuel > 0 {
      FixpointNeverFinishes(s, end, fuel - 1);
    }
  }

  /** A response whose only entry lacks its "value" key. */
  const Looping: string := "xxxxxxx}\"name\":\"a\""

  /** The key search finds the entry from any position up to 8. */
  lemma LoopingKey(from: nat)
    requires from <= 8
    ensures FindPos(Looping, NameKey, from) == 8
  {
    assert Looping[8..15] == NameKey;
    forall j | from <= j < 8
      ensures !IsAt(Looping, NameKey, j)
    {
      assert Looping[j] == 'x' || Looping[j] == '}';
    }
    FindFirst(Looping, NameKey, from, 8);
  }

  /** Its name half reads "a" and stops at the closing quote at 17. */
  lemma LoopingName()
    ensures IsAt(Looping, NameKey, 8) && NameAsWritten(Looping, 8) == ("a", 17)
  {
    assert Looping[8..15] == NameKey;
    FindCharAt(Looping, '"', 14, 15);
    FindCharAt(Looping, '"', 16, 17);
    NameFound(Looping, 8, 15, 17);
    assert Looping[16..17] == "a";
  }

  /** Its value half: the value search fails, npos + 8 wraps to 7, and the
      brace search lands on the brace at 7, before the key. */
  lemma LoopingValue()
    ensures ValueAsWritten(Looping, 17) == ("", 7)
  {
    FindNone(Looping, ValueKey, 17);
    ValueMissing(Looping, 17);
    FindCharAt(Looping, '}', 7, 7);
    WrapExact(0);
  }

  /** Position 7 is a position the loop comes back to. */
  lemma LoopingFixpoint()
    ensures Fixpoint(Looping, 7)
  {
    LoopingKey(7);
    LoopingName();
    LoopingValue();
  }

  /** A loop whose next turn starts it on a run that never finishes does
      not finish either. */
  lemma StuckAfterStep(s: string, end: nat, fuel: nat)
    requires |s| < Npos && fuel > 0 && FindPos(s, NameKey, end) != Npos
    requires LoopAsWritten(s, StepAsWritten(s, FindPos(s, NameKey, end)).1, fuel - 1) == None
    ensures LoopAsWritten(s, end, fuel) == None
  {
  }

  /** A loop whose first iteration lands on a position it comes back to
      never finishes either. */
  lemma EntersFixpoint(s: string, end: nat, fuel: nat)
    requires |s| < Npos && FindPos(s, NameKey, end) != Npos
    requires Fixpoint(s, StepAsWritten(s, FindPos(s, NameKey, end)).1)
    ensures LoopAsWritten(s, end, fuel) == None
  {
    if fuel > 0 {
      var b := StepAsWritten(s, FindPos(s, NameKey, end)).1;
      FixpointNeverFinishes(s, b, fuel - 1);
      StuckAfterStep(s, end, fuel);
    }
  }

  /** getConfig, as written, never returns on that response. */
  lemma LoopingNeverFinishes(fuel: nat)
    ensures LoopAsWritten(Looping, 0, fuel) == None
  {
    LoopingFixpoint();
    LoopingKey(0);
    LoopingName();
    LoopingValue();
    EntersFixpoint(Looping, 0, fuel);
  }

  /** The corrected scan stops at the broken entry and reports no pairs. */
  lemma LoopingCorrected()
    ensures ParseResponse(Looping) == [] && !WellFormed(Looping, 0)
  {
    LoopingKey(0);
    FindCharAt(Looping, '"', 14, 15);
    FindCharAt(Looping, '"', 16, 17);
    FindNone(Looping, ValueKey, 17);
  }

  /** On a successful transfer whose response is well formed, the list
      getConfig reports is the one the loop as written collects. */
  lemma GetConfigMatchesSource(t: Transport)
    requires Succeeded(t) && |ResponseText(t)| < Npos && WellFormed(ResponseText(t), 0)
    ensures GetConfig(t) == Some(ParseResponse(ResponseText(t)))
    ensures LoopAsWritten(ResponseText(t), 0, |ResponseText(t)| + 1) == Some(ParseResponse(ResponseText(t)))
  {
    SourceLoopAgrees(ResponseText(t));
  }

  /** The loop as written, given one iteration more than the response has
      characters, finishes with the corrected scan's pairs. */
  lemma SourceLoopAgrees(s: string)
    requires |s| < Npos && WellFormed(s, 0)
    ensures LoopAsWritten(s, 0, |s| + 1) == Some(ParseResponse(s))
  {
    LoopAgrees(s, 0, |s| + 1);
  }

  /** A response whose last entry has no closing brace. */
  const Truncated: string := "\"name\":\"a\",\"value\":\"1\""

  /** Its name and value keys are found where they are written. */
  lemma TruncatedKeys()
    ensures FindPos(Truncated, NameKey, 0) == 0
    ensures FindPos(Truncated, ValueKey, 9) == 11
  {
    assert Truncated[0..7] == NameKey;
    FindFirst(Truncated, NameKey, 0, 0);
    assert Truncated[11..19] == ValueKey;
    assert !IsAt(Truncated, ValueKey, 9) by { assert Truncated[9..17][1] != ValueKey[1]; }
    assert !IsAt(Truncated, ValueKey, 10) by { assert Truncated[10..18][0] != ValueKey[0]; }
    FindFirst(Truncated, ValueKey, 9, 11);
  }

  /** As written, the name half reads "a" and stops at its closing quote. */
  lemma TruncatedName()
    ensures IsAt(Truncated, NameKey, 0) && NameAsWritten(Truncated, 0) == ("a", 9)
  {
    assert Truncated[0..7] == NameKey;
    FindCharAt(Truncated, '"', 6, 7);
    FindCharAt(Truncated, '"', 8, 9);
    NameFound(Truncated, 0, 7, 9);
    assert Truncated[8..9] == "a";
  }

  /** As written, the brace search fails, so the value runs to the end of
      the text and the next search starts at npos. */
  lemma TruncatedValue()
    ensures ValueAsWritten(Truncated, 9) == ("\"1\"", Npos)
  {
    TruncatedKeys();
    FindCharNone(Truncated, '}', 19);
    WrapExact(19);
    WrapExact(Npos - 19);
    assert Truncated[19..] == "\"1\"";
    assert CharPos(Truncated, '}', 19) == Npos;
  }

  /** As written, the next key search, from npos, ends the loop: getConfig
      returns the pair ("a", "\"1\""). */
  lemma TruncatedAsWritten()
    ensures LoopAsWritten(Truncated, 0, 2) == Some([Param("a", "\"1\"")])
  {
    TruncatedKeys();
    TruncatedName();
    TruncatedValue();
    assert StepAsWritten(Truncated, 0) == (Param("a", "\"1\""), Npos);
    assert LoopAsWritten(Truncated, Npos, 1) == Some([]);
    assert [Param("a", "\"1\"")] + [] == [Param("a", "\"1\"")];
  }

  /** The corrected scan stops at the incomplete entry and reports nothing,
      so on this response the model and the source differ. */
  lemma TruncatedCorrected()
    ensures ParseResponse(Truncated) == [] && !WellFormed(Truncated, 0)
  {
    assert Truncated[0..7] == NameKey;
    FindFirst(Truncated, NameKey, 0, 0);
    FindCharAt(Truncated, '"', 6, 7);
    FindCharAt(Truncated, '"', 8, 9);
    TruncatedKeys();
    FindCharNone(Truncated, '}', 19);
  }
}
