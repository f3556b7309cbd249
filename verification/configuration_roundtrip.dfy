/**
 * What getConfig's scan recovers: from a response laid out as the
 * configuration endpoint writes it, exactly the pairs it carries, in order;
 * and from the request body, exactly the names it was built from.
 */
module ConfigurationRoundTrip {
  import opened Types
  import opened Text
  import opened Configuration

  /** A quote followed by `n` starts at position j of t. */
  ghost predicate KeyStartAt(t: string, j: int)
  {
    0 <= j && j + 1 < |t| && t[j] == '"' && t[j + 1] == 'n'
  }

  /** No `"name":` can start inside t: t does not end in a quote and no
      quote in it is followed by `n`. */
  ghost predicate NoKeyStart(t: string)
  {
    && (|t| > 0 ==> t[|t| - 1] != '"')
    && forall j :: !KeyStartAt(t, j)
  }

  lemma NoKeyStartConcat(x: string, y: string)
    requires NoKeyStart(x) && NoKeyStart(y)
    ensures NoKeyStart(x + y)
  {
    var t := x + y;
    forall j
      ensures !KeyStartAt(t, j)
    {
      if 0 <= j && j + 1 < |t| {
        if j + 1 < |x| {
          assert !KeyStartAt(x, j);
        } else if j + 1 == |x| {
          assert t[j] == x[|x| - 1];
        } else {
          assert !KeyStartAt(y, j - |x|);
          assert t[j] == y[j - |x|] && t[j + 1] == y[j + 1 - |x|];
        }
      }
    }
  }

  /** A stretch of s free of key starts holds no `"name":`. */
  lemma NoKeyBetween(s: string, from: nat, to: nat)
    requires from <= to <= |s| && NoKeyStart(s[from..to])
    ensures forall j :: from <= j < to ==> !IsAt(s, NameKey, j)
  {
    var t := s[from..to];
    forall j | from <= j < to
      ensures !IsAt(s, NameKey, j)
    {
      if j + 7 <= |s| {
        assert t[j - from] == s[j];
        if s[j] == '"' {
          assert j + 1 < to;
          assert !KeyStartAt(t, j - from);
          assert t[j + 1 - from] == s[j + 1];
          assert s[j..j + 7][1] != NameKey[1];
        } else {
          assert s[j..j + 7][0] != NameKey[0];
        }
      }
    }
  }

  /** The scan stops once the rest of the text is free of key starts. */
  lemma ScanEnds(s: string, from: nat)
    requires from <= |s| && NoKeyStart(s[from..])
    ensures NextKey(s, from) == None
  {
    assert s[from..] == s[from..|s|];
    NoKeyBetween(s, from, |s|);
    FindNone(s, NameKey, from);
  }

  /** One turn of the response loop, once its searches are known: the pair
      comes first and well-formedness rests on the rest of the text. */
  lemma ParseUnfold(s: string, from: nat, p: nat, param: Param, b: nat)
    requires NextKey(s, from) == Some(p)
    requires IsAt(s, NameKey, p) && ReadEntry(s, p) == Some((param, b))
    ensures ParseFrom(s, from) == [param] + ParseFrom(s, b)
    ensures WellFormed(s, from) == WellFormed(s, b)
  {
  }

  /** The loop ends, well formed and with nothing more, where no key is
      left. */
  lemma ParseEnd(s: string, from: nat)
    requires NextKey(s, from) == None
    ensures ParseFrom(s, from) == [] && WellFormed(s, from)
  {
  }

  /** One turn of the name scan, once its searches are known. */
  lemma ScanNamesUnfold(s: string, from: nat, p: nat, name: string, e: nat)
    requires NextKey(s, from) == Some(p)
    requires IsAt(s, NameKey, p) && ReadName(s, p) == Some((name, e))
    ensures ScanNames(s, from) == [name] + ScanNames(s, e)
  {
  }

  // ---------------------------------------------------------------------
  // Responses

  /** A response opens the way a request does. */
  const ResponseHead: string := RequestHead
  const ResponseTail: string := "],\"success\":true}"

  /** What follows the name in an entry: its closing quote, a comma, the
      value key. */
  const ValueOpen: string := "\",\"value\":"

  /** One entry as the endpoint writes it: {"name":"n","value":v}. */
  function Entry(p: Param): string
  {
    NameOpen + p.name + ValueOpen + p.value + "}"
  }

  function ResponseEntries(ps: seq<Param>): string
  {
    if |ps| == 0 then ""
    else if |ps| == 1 then Entry(ps[0])
    else Entry(ps[0]) + "," + ResponseEntries(ps[1..])
  }

  /** A response body in the endpoint's layout. */
  function EncodeResponse(ps: seq<Param>): string
  {
    ResponseHead + ResponseEntries(ps) + ResponseTail
  }

  // ---------------------------------------------------------------------
  // Text written at a position

  /** Position k of R differs from the text of s at A + k. */
  ghost predicate Mismatch(s: string, A: int, R: string, k: int)
  {
    0 <= k < |R| && (A + k < 0 || A + k >= |s| || s[A + k] != R[k])
  }

  /** R is written in s starting at A. Stated through Mismatch so that the
      characters are compared only where a proof asks for them. */
  ghost predicate Written(s: string, A: nat, R: string)
  {
    A + |R| <= |s| && forall k :: !Mismatch(s, A, R, k)
  }

  lemma WrittenSlice(s: string, A: nat, R: string)
    requires Written(s, A, R)
    ensures s[A..A + |R|] == R
  {
    forall k | 0 <= k < |R|
      ensures s[A..A + |R|][k] == R[k]
    {
      assert !Mismatch(s, A, R, k);
    }
  }

  lemma SliceWritten(s: string, A: nat, R: string)
    requires A + |R| <= |s| && s[A..A + |R|] == R
    ensures Written(s, A, R)
  {
    forall k
      ensures !Mismatch(s, A, R, k)
    {
      if 0 <= k < |R| {
        assert s[A + k] == s[A..A + |R|][k];
      }
    }
  }

  lemma WrittenChar(s: string, A: nat, R: string, k: nat)
    requires Written(s, A, R) && k < |R|
    ensures s[A + k] == R[k]
  {
    assert !Mismatch(s, A, R, k);
  }

  /** X,Y written at A: X at A, the comma after it, Y after that. */
  lemma WrittenSplit(s: string, A: nat, X: string, Y: string)
    requires Written(s, A, X + "," + Y)
    ensures Written(s, A, X) && s[A + |X|] == ',' && Written(s, A + |X| + 1, Y)
  {
    var R := X + "," + Y;
    forall k
      ensures !Mismatch(s, A, X, k)
    {
      if 0 <= k < |X| {
        assert !Mismatch(s, A, R, k) && R[k] == X[k];
      }
    }
    assert !Mismatch(s, A, R, |X|) && R[|X|] == ',';
    var B := A + |X| + 1;
    forall k
      ensures !Mismatch(s, B, Y, k)
    {
      if 0 <= k < |Y| {
        assert !Mismatch(s, A, R, |X| + 1 + k) && R[|X| + 1 + k] == Y[k];
      }
    }
  }

  /** Two characters, neither a quote, hold no key start. */
  lemma NoKeyStartPair(s: string, c: nat)
    requires c + 2 <= |s| && s[c] != '"' && s[c + 1] != '"'
    ensures NoKeyStart(s[c..c + 2])
  {
    var t := s[c..c + 2];
    assert t[0] == s[c] && t[1] == s[c + 1];
  }

  /** A key-free stretch extended by one leading character stays key-free,
      unless that character is a quote followed by `n`. */
  lemma NoKeyStartCons(s: string, c: nat, to: nat)
    requires c < to <= |s| && NoKeyStart(s[c + 1..to])
    requires s[c] == '"' ==> c + 1 < to && s[c + 1] != 'n'
    ensures NoKeyStart(s[c..to])
  {
    var t := s[c..to];
    var u := s[c + 1..to];
    forall j
      ensures !KeyStartAt(t, j)
    {
      if 0 <= j && j + 1 < |t| {
        if j == 0 {
          assert t[0] == s[c] && t[1] == s[c + 1];
        } else {
          assert !KeyStartAt(u, j - 1);
          assert t[j] == u[j - 1] && t[j + 1] == u[j];
        }
      }
    }
    if |u| > 0 {
      assert t[|t| - 1] == u[|u| - 1];
    }
  }

  /** The same for a suffix of s. */
  lemma NoKeyStartConsTail(s: string, c: nat)
    requires c < |s| && NoKeyStart(s[c + 1..])
    requires s[c] == '"' ==> c + 1 < |s| && s[c + 1] != 'n'
    ensures NoKeyStart(s[c..])
  {
    assert s[c + 1..] == s[c + 1..|s|] && s[c..] == s[c..|s|];
    NoKeyStartCons(s, c, |s|);
  }

  lemma SliceOfSlice(s: string, lo: nat, hi: nat, i: nat, j: nat)
    requires lo <= hi <= |s| && i <= j <= hi - lo
    ensures s[lo..hi][i..j] == s[lo + i..lo + j]
  {
    assert forall k :: 0 <= k < j - i ==> s[lo..hi][i..j][k] == s[lo + i..lo + j][k];
  }

  /** X + Y written at A: X at A and Y right after it. */
  lemma WrittenAppend(s: string, A: nat, X: string, Y: string)
    requires Written(s, A, X + Y)
    ensures Written(s, A, X) && Written(s, A + |X|, Y)
  {
    forall k
      ensures !Mismatch(s, A, X, k)
    {
      if 0 <= k < |X| {
        assert !Mismatch(s, A, X + Y, k) && (X + Y)[k] == X[k];
      }
    }
    var B := A + |X|;
    forall k
      ensures !Mismatch(s, B, Y, k)
    {
      if 0 <= k < |Y| {
        assert !Mismatch(s, A, X + Y, |X| + k) && (X + Y)[|X| + k] == Y[k];
      }
    }
  }

  /** The key is found first at A + 1 when an entry opens at A and the text
      from `from` up to it is key-free. */
  lemma KeyFoundAt(s: string, from: nat, A: nat)
    requires from <= A && Written(s, A, NameOpen) && NoKeyStart(s[from..A])
    ensures IsAt(s, NameKey, A + 1)
    ensures NextKey(s, from) == Some(A + 1)
  {
    WrittenSlice(s, A, NameOpen);
    SliceOfSlice(s, A, A + 9, 1, 8);
    assert s[A] == s[A..A + 9][0];
    NoKeyBetween(s, from, A);
    assert s[A..A + 7][0] != NameKey[0];
    FindFirst(s, NameKey, from, A + 1);
  }

  /** Reading the name of an entry that opens at A with name n. */
  lemma ReadNameAt(s: string, A: nat, n: string)
    requires NoChar(n, '"') && Written(s, A, NameOpen) && Written(s, A + 9, n)
    requires A + 9 + |n| < |s| && s[A + 9 + |n|] == '"'
    ensures IsAt(s, NameKey, A + 1)
    ensures ReadName(s, A + 1) == Some((n, A + 9 + |n|))
  {
    var e := A + 9 + |n|;
    WrittenSlice(s, A, NameOpen);
    WrittenSlice(s, A + 9, n);
    SliceOfSlice(s, A, A + 9, 1, 8);
    assert s[A + 7] == s[A..A + 9][7] && s[A + 8] == s[A..A + 9][8];
    FindCharAt(s, '"', A + 7, A + 8);
    forall j | A + 9 <= j < e
      ensures s[j] != '"'
    {
      assert !Mismatch(s, A + 9, n, j - A - 9);
    }
    FindCharAt(s, '"', A + 9, e);
  }

  /** Reading the value that follows a name's closing quote at e. */
  lemma ReadValueAt(s: string, e: nat, v: string)
    requires NoChar(v, '}') && Written(s, e, ValueOpen) && Written(s, e + 10, v)
    requires e + 10 + |v| < |s| && s[e + 10 + |v|] == '}'
    ensures Find(s, ValueKey, e) == Some(e + 2)
    ensures FindChar(s, '}', e + 10) == Some(e + 10 + |v|)
  {
    WrittenSlice(s, e, ValueOpen);
    SliceOfSlice(s, e, e + 10, 0, 8);
    assert s[e..e + 8][1] != ValueKey[1];
    SliceOfSlice(s, e, e + 10, 1, 9);
    assert s[e + 1..e + 9][0] != ValueKey[0];
    SliceOfSlice(s, e, e + 10, 2, 10);
    FindFirst(s, ValueKey, e, e + 2);
    forall j | e + 10 <= j < e + 10 + |v|
      ensures s[j] != '}'
    {
      assert !Mismatch(s, e + 10, v, j - e - 10);
    }
    FindCharAt(s, '}', e + 10, e + 10 + |v|);
  }

  /** The pieces of an entry written at A, each at its place. */
  lemma EntryPieces(s: string, A: nat, p: Param)
    requires Written(s, A, Entry(p))
    ensures var n, v := p.name, p.value;
      && Written(s, A, NameOpen) && Written(s, A + 9, n)
      && Written(s, A + 9 + |n|, ValueOpen) && Written(s, A + 19 + |n|, v)
      && s[A + 9 + |n|] == '"' && s[A + 19 + |n| + |v|] == '}'
      && |Entry(p)| == 20 + |n| + |v|
  {
    var n, v := p.name, p.value;
    assert Entry(p) == NameOpen + n + ValueOpen + v + "}";
    WrittenAppend(s, A, NameOpen + n + ValueOpen + v, "}");
    WrittenAppend(s, A, NameOpen + n + ValueOpen, v);
    WrittenAppend(s, A, NameOpen + n, ValueOpen);
    WrittenAppend(s, A, NameOpen, n);
    WrittenChar(s, A + 9 + |n|, ValueOpen, 0);
    WrittenChar(s, A + 19 + |n| + |v|, "}", 0);
  }

  /** Reading a whole entry written at A. */
  lemma ReadEntryAt(s: string, A: nat, p: Param)
    requires ValidParam(p) && Written(s, A, Entry(p))
    ensures IsAt(s, NameKey, A + 1)
    ensures ReadEntry(s, A + 1) == Some((p, A + |Entry(p)| - 1))
  {
    var n, v := p.name, p.value;
    EntryPieces(s, A, p);
    ReadNameAt(s, A, n);
    ReadValueAt(s, A + 9 + |n|, v);
    WrittenSlice(s, A + 19 + |n|, v);
  }

  /** The searches of one loop iteration over an entry written at A, with
      key-free text from `from` up to it. */
  lemma EntrySearches(s: string, from: nat, A: nat, p: Param)
    requires ValidParam(p) && from <= A && Written(s, A, Entry(p)) && NoKeyStart(s[from..A])
    ensures NextKey(s, from) == Some(A + 1) && IsAt(s, NameKey, A + 1)
    ensures ReadEntry(s, A + 1) == Some((p, A + |Entry(p)| - 1))
  {
    EntryPieces(s, A, p);
    ReadEntryAt(s, A, p);
    KeyFoundAt(s, from, A);
  }

  /** One loop iteration over an entry written at A: the scan skips the
      key-free text before it, yields its pair and resumes at its closing
      brace. */
  lemma EntryStep(s: string, from: nat, A: nat, p: Param)
    requires ValidParam(p) && from <= A && Written(s, A, Entry(p)) && NoKeyStart(s[from..A])
    ensures ParseFrom(s, from) == [p] + ParseFrom(s, A + |Entry(p)| - 1)
    ensures WellFormed(s, from) == WellFormed(s, A + |Entry(p)| - 1)
  {
    EntrySearches(s, from, A, p);
    EntryUnfold(s, from, A, p);
  }

  /** ParseUnfold at an entry written at A. */
  lemma EntryUnfold(s: string, from: nat, A: nat, p: Param)
    requires NextKey(s, from) == Some(A + 1) && IsAt(s, NameKey, A + 1)
    requires ReadEntry(s, A + 1) == Some((p, A + |Entry(p)| - 1))
    ensures ParseFrom(s, from) == [p] + ParseFrom(s, A + |Entry(p)| - 1)
    ensures WellFormed(s, from) == WellFormed(s, A + |Entry(p)| - 1)
  {
    ParseUnfold(s, from, A + 1, p, A + |Entry(p)| - 1);
  }

  /** The text after the last entry of a run, from its closing brace on,
      holds no key. */
  lemma AfterLastEntry(s: string, A: nat, p: Param)
    requires Written(s, A, Entry(p)) && NoKeyStart(s[A + |Entry(p)|..])
    ensures ParseFrom(s, A + |Entry(p)| - 1) == [] && WellFormed(s, A + |Entry(p)| - 1)
  {
    var c := A + |Entry(p)| - 1;
    WrittenChar(s, A, Entry(p), |Entry(p)| - 1);
    NoKeyStartConsTail(s, c);
    ScanEnds(s, c);
    ParseEnd(s, c);
  }

  /** The last entry of a run: the scan yields its pair and then finds no
      further key. */
  lemma LastEntryParse(s: string, from: nat, A: nat, p: Param)
    requires ValidParam(p) && from <= A && Written(s, A, Entry(p))
    requires NoKeyStart(s[from..A]) && NoKeyStart(s[A + |Entry(p)|..])
    ensures ParseFrom(s, from) == [p] && WellFormed(s, from)
  {
    EntryStep(s, from, A, p);
    AfterLastEntry(s, A, p);
    assert [p] + [] == [p];
  }

  /** An entry followed by text that parses to `rest`. */
  lemma ConsEntryParse(s: string, from: nat, A: nat, p: Param, rest: seq<Param>)
    requires ValidParam(p) && from <= A && Written(s, A, Entry(p)) && NoKeyStart(s[from..A])
    requires ParseFrom(s, A + |Entry(p)| - 1) == rest && WellFormed(s, A + |Entry(p)| - 1)
    ensures ParseFrom(s, from) == [p] + rest && WellFormed(s, from)
  {
    EntryStep(s, from, A, p);
  }

  /** A sequence equal to the head of `ps` followed by its tail is `ps`. */
  lemma HeadTail<T>(xs: seq<T>, ps: seq<T>, p: T, rest: seq<T>)
    requires |ps| > 0 && p == ps[0] && rest == ps[1..] && xs == [p] + rest
    ensures xs == ps
  {
  }

  /** A run of two or more entries is its first entry, the key-free "},"
      joint, and the rest of the run. */
  lemma EntriesSplit(s: string, A: nat, ps: seq<Param>)
    requires |ps| > 1 && Written(s, A, ResponseEntries(ps))
    ensures var E := Entry(ps[0]); var R' := ResponseEntries(ps[1..]);
      && Written(s, A, E) && NoKeyStart(s[A + |E| - 1..A + |E| + 1])
      && Written(s, A + |E| + 1, R')
      && A + |E| + 1 + |R'| == A + |ResponseEntries(ps)|
  {
    var E := Entry(ps[0]);
    var R' := ResponseEntries(ps[1..]);
    assert ResponseEntries(ps) == E + "," + R';
    WrittenSplit(s, A, E, R');
    WrittenChar(s, A, E, |E| - 1);
    NoKeyStartPair(s, A + |E| - 1);
  }

  /** A run of entries laid out from A: each written in turn, joined by
      key-free "}," joints, with key-free text after the last. */
  ghost predicate EntriesAt(s: string, A: nat, ps: seq<Param>)
    decreases |ps|
  {
    && |ps| > 0 && ValidParam(ps[0]) && Written(s, A, Entry(ps[0]))
    && if |ps| == 1 then NoKeyStart(s[A + |Entry(ps[0])|..])
       else
         && A + |Entry(ps[0])| + 1 <= |s|
         && NoKeyStart(s[A + |Entry(ps[0])| - 1..A + |Entry(ps[0])| + 1])
         && EntriesAt(s, A + |Entry(ps[0])| + 1, ps[1..])
  }

  /** A run of one entry: the entry and the key-free text after it. */
  lemma EntriesLast(s: string, A: nat, ps: seq<Param>) returns (p: Param)
    requires EntriesAt(s, A, ps) && |ps| == 1
    ensures ps == [p] && ValidParam(p) && Written(s, A, Entry(p))
    ensures NoKeyStart(s[A + |Entry(p)|..])
  {
    p := ps[0];
  }

  /** A run of two or more entries: its first entry `p`, the key-free "},"
      joint after it, and the rest of the run after that. */
  lemma EntriesNext(s: string, A: nat, ps: seq<Param>) returns (p: Param, rest: seq<Param>)
    requires EntriesAt(s, A, ps) && |ps| > 1
    ensures p == ps[0] && rest == ps[1..]
    ensures ValidParam(p) && Written(s, A, Entry(p))
    ensures NoKeyStart(s[A + |Entry(p)| - 1..A + |Entry(p)| + 1])
    ensures EntriesAt(s, A + |Entry(p)| + 1, rest)
  {
    p := ps[0];
    rest := ps[1..];
  }

  /** The encoded entries, written at A and followed by key-free text, are
      laid out as a run. */
  lemma {:induction false} EntriesLayout(s: string, A: nat, ps: seq<Param>)
    requires |ps| > 0 && forall i :: 0 <= i < |ps| ==> ValidParam(ps[i])
    requires Written(s, A, ResponseEntries(ps)) && NoKeyStart(s[A + |ResponseEntries(ps)|..])
    ensures EntriesAt(s, A, ps)
    decreases |ps|
  {
    if |ps| == 1 {
      assert ResponseEntries(ps) == Entry(ps[0]);
    } else {
      EntriesSplit(s, A, ps);
      assert forall i :: 0 <= i < |ps[1..]| ==> ValidParam(ps[1..][i]);
      EntriesLayout(s, A + |Entry(ps[0])| + 1, ps[1..]);
    }
  }

  /** The scan over a run of entries, after key-free text from `from`,
      yields exactly their pairs, in order. */
  lemma {:induction false} EntriesParse(s: string, from: nat, A: nat, ps: seq<Param>)
    requires EntriesAt(s, A, ps) && from <= A && NoKeyStart(s[from..A])
    ensures ParseFrom(s, from) == ps && WellFormed(s, from)
    decreases |ps|, 1
  {
    if |ps| == 1 {
      var p := EntriesLast(s, A, ps);
      LastEntryParse(s, from, A, p);
    } else {
      EntriesParseCons(s, from, A, ps);
    }
  }

  /** The inductive step of EntriesParse: a run of two or more entries. */
  lemma {:induction false} EntriesParseCons(s: string, from: nat, A: nat, ps: seq<Param>)
    requires EntriesAt(s, A, ps) && |ps| > 1 && from <= A && NoKeyStart(s[from..A])
    ensures ParseFrom(s, from) == ps && WellFormed(s, from)
    decreases |ps|, 0
  {
    var p, rest := EntriesNext(s, A, ps);
    EntriesParse(s, A + |Entry(p)| - 1, A + |Entry(p)| + 1, rest);
    ConsEntryParse(s, from, A, p, rest);
    HeadTail(ParseFrom(s, from), ps, p, rest);
  }

  /** Round trip: scanning a response in the endpoint's layout recovers the
      pairs it was written from, names and raw values, in order and with
      duplicates kept. */
  lemma ResponseRoundTrip(ps: seq<Param>)
    requires forall i :: 0 <= i < |ps| ==> ValidParam(ps[i])
    ensures ParseResponse(EncodeResponse(ps)) == ps && WellFormed(EncodeResponse(ps), 0)
  {
    EncodedParse(ResponseHead, ps);
  }

  /** An encoded body after a key-free preamble: the entries are written
      after the preamble and the text around them is key-free. */
  lemma EncodedLayout(head: string, ps: seq<Param>)
    requires NoKeyStart(head)
    ensures var R := ResponseEntries(ps); var s := head + R + ResponseTail;
      && Written(s, |head|, R) && NoKeyStart(s[0..|head|]) && NoKeyStart(s[|head| + |R|..])
  {
    var R := ResponseEntries(ps);
    var s := head + R + ResponseTail;
    assert NoKeyStart(ResponseTail);
    assert s[0..|head|] == head;
    assert s[|head| + |R|..] == ResponseTail;
    assert s[|head|..|head| + |R|] == R;
    SliceWritten(s, |head|, R);
  }

  /** The scan of any key-free preamble followed by an encoded body. */
  lemma EncodedParse(head: string, ps: seq<Param>)
    requires forall i :: 0 <= i < |ps| ==> ValidParam(ps[i])
    requires NoKeyStart(head)
    ensures ParseResponse(head + ResponseEntries(ps) + ResponseTail) == ps
      && WellFormed(head + ResponseEntries(ps) + ResponseTail, 0)
  {
    var s := head + ResponseEntries(ps) + ResponseTail;
    if |ps| == 0 {
      assert NoKeyStart(ResponseTail);
      NoKeyStartConcat(head, ResponseTail);
      assert s[0..] == head + ResponseTail;
      ScanEnds(s, 0);
    } else {
      EncodedLayout(head, ps);
      EntriesLayout(s, |head|, ps);
      EntriesParse(s, 0, |head|, ps);
    }
  }

  const TestStatusLine: string := "HTTP/1.1 200\n\r"
  const TestHeader: string := "Content-type: application/json\n\r"
  const TestParams: seq<Param> :=
    [Param("Device.X_CISCO_COM_LED.RedPwm", "\"123\""), Param("Device.DeviceInfo.Manufacturer", "\"RDK\"")]

  /** Neither name of the integration test holds a quote, nor either value
      a closing brace. */
  lemma TestParamsValid()
    ensures forall i :: 0 <= i < |TestParams| ==> ValidParam(TestParams[i])
  {
    FirstTestNameQuoteFree();
    SecondTestNameQuoteFree();
  }

  lemma FirstTestNameQuoteFree()
    ensures NoChar("Device.X_CISCO_COM_LED.RedPwm", '"')
  {
    PlainName("Device.X_CISCO_COM_LED.RedPwm");
  }

  lemma SecondTestNameQuoteFree()
    ensures NoChar("Device.DeviceInfo.Manufacturer", '"')
  {
    PlainName("Device.DeviceInfo.Manufacturer");
  }

  lemma TestPreambleKeyFree()
    ensures NoKeyStart(TestStatusLine + TestHeader + ResponseHead)
  {
    assert NoKeyStart(TestStatusLine);
    assert NoKeyStart(TestHeader);
    assert NoKeyStart(ResponseHead);
    NoKeyStartConcat(TestStatusLine, TestHeader);
    NoKeyStartConcat(TestStatusLine + TestHeader, ResponseHead);
  }

  /** The response the configuration endpoint sends in the interface's
      integration test, status line and headers included: both names come
      back, each with its quoted value. */
  lemma IntegrationTestResponse()
    ensures ParseResponse(TestStatusLine + TestHeader + ResponseHead + ResponseEntries(TestParams) + ResponseTail)
      == TestParams
  {
    TestParamsValid();
    TestPreambleKeyFree();
    EncodedParse(TestStatusLine + TestHeader + ResponseHead, TestParams);
  }

  /** A response keyed by parameter name, without "name" keys, yields no
      pairs at all: the scan looks only for "name" keys. */
  lemma KeyedResponseYieldsNothing()
    ensures ParseResponse("{\"A\":\"1\"}") == []
  {
    var s := "{\"A\":\"1\"}";
    assert NoKeyStart(s) && s[0..] == s;
    ScanEnds(s, 0);
  }

  // ---------------------------------------------------------------------
  // Requests

  /** The name scan from `from` yields exactly `names`. */
  ghost predicate ScansTo(s: string, from: nat, names: seq<string>)
  {
    ScanNames(s, from) == names
  }

  /** The searches of the name scan over a request entry written at A. */
  lemma RequestEntrySearches(s: string, from: nat, A: nat, n: string)
    requires NoChar(n, '"') && from <= A && Written(s, A, RequestEntry(n)) && NoKeyStart(s[from..A])
    ensures NextKey(s, from) == Some(A + 1) && IsAt(s, NameKey, A + 1)
    ensures ReadName(s, A + 1) == Some((n, A + |RequestEntry(n)| - 2))
  {
    assert RequestEntry(n) == NameOpen + n + "\"}";
    WrittenAppend(s, A, NameOpen + n, "\"}");
    WrittenAppend(s, A, NameOpen, n);
    WrittenChar(s, A + 9 + |n|, "\"}", 0);
    ReadNameAt(s, A, n);
    KeyFoundAt(s, from, A);
  }

  /** One request entry written at A, followed by text that scans to
      `rest`: the scan yields its name, then `rest`. */
  lemma ConsRequestEntry(s: string, from: nat, A: nat, n: string, rest: seq<string>)
    requires NoChar(n, '"') && from <= A && Written(s, A, RequestEntry(n)) && NoKeyStart(s[from..A])
    requires ScansTo(s, A + |RequestEntry(n)| - 2, rest)
    ensures ScansTo(s, from, [n] + rest)
  {
    RequestEntrySearches(s, from, A, n);
    ScanNamesUnfold(s, from, A + 1, n, A + |RequestEntry(n)| - 2);
  }

  /** After the last request entry, from its name's closing quote on, the
      text holds no key. */
  lemma AfterLastRequestEntry(s: string, A: nat, n: string)
    requires Written(s, A, RequestEntry(n)) && NoKeyStart(s[A + |RequestEntry(n)|..])
    ensures NextKey(s, A + |RequestEntry(n)| - 2) == None
  {
    var E := RequestEntry(n);
    var q := A + |E| - 2;
    WrittenChar(s, A, E, |E| - 2);
    WrittenChar(s, A, E, |E| - 1);
    NoKeyStartConsTail(s, q + 1);
    NoKeyStartConsTail(s, q);
    ScanEnds(s, q);
  }

  /** The last request entry: the scan yields its name and finds no
      further key. */
  lemma LastRequestEntry(s: string, from: nat, A: nat, n: string)
    requires NoChar(n, '"') && from <= A && Written(s, A, RequestEntry(n))
    requires NoKeyStart(s[from..A]) && NoKeyStart(s[A + |RequestEntry(n)|..])
    ensures ScansTo(s, from, [n])
  {
    AfterLastRequestEntry(s, A, n);
    ConsRequestEntry(s, from, A, n, []);
    assert [n] + [] == [n];
  }

  /** A run of two or more request entries is its first entry, a comma,
      and the rest; the text from the first name's closing quote up to the
      rest is key-free. */
  lemma RequestEntriesSplit(s: string, A: nat, names: seq<string>)
    requires |names| > 1 && Written(s, A, RequestEntries(names))
    ensures var E := RequestEntry(names[0]); var R' := RequestEntries(names[1..]);
      && Written(s, A, E) && NoKeyStart(s[A + |E| - 2..A + |E| + 1])
      && Written(s, A + |E| + 1, R')
      && A + |E| + 1 + |R'| == A + |RequestEntries(names)|
  {
    var E := RequestEntry(names[0]);
    var R' := RequestEntries(names[1..]);
    var q := A + |E| - 2;
    assert RequestEntries(names) == E + "," + R';
    WrittenSplit(s, A, E, R');
    WrittenChar(s, A, E, |E| - 2);
    WrittenChar(s, A, E, |E| - 1);
    NoKeyStartPair(s, q + 1);
    NoKeyStartCons(s, q, q + 3);
  }

  /** A run of request entries laid out from A: each written in turn,
      joined by key-free joints, with key-free text after the last. */
  ghost predicate NamesAt(s: string, A: nat, names: seq<string>)
    decreases |names|
  {
    && |names| > 0 && NoChar(names[0], '"') && Written(s, A, RequestEntry(names[0]))
    && if |names| == 1 then NoKeyStart(s[A + |RequestEntry(names[0])|..])
       else
         && A + |RequestEntry(names[0])| + 1 <= |s|
         && NoKeyStart(s[A + |RequestEntry(names[0])| - 2..A + |RequestEntry(names[0])| + 1])
         && NamesAt(s, A + |RequestEntry(names[0])| + 1, names[1..])
  }

  /** The encoded request entries, written at A and followed by key-free
      text, are laid out as a run. */
  lemma {:induction false} NamesLayout(s: string, A: nat, names: seq<string>)
    requires |names| > 0 && forall i :: 0 <= i < |names| ==> NoChar(names[i], '"')
    requires Written(s, A, RequestEntries(names)) && NoKeyStart(s[A + |RequestEntries(names)|..])
    ensures NamesAt(s, A, names)
    decreases |names|
  {
    if |names| == 1 {
      assert RequestEntries(names) == RequestEntry(names[0]);
    } else {
      RequestEntriesSplit(s, A, names);
      assert forall i :: 0 <= i < |names[1..]| ==> NoChar(names[1..][i], '"');
      NamesLayout(s, A + |RequestEntry(names[0])| + 1, names[1..]);
    }
  }

  /** The name scan over a run of request entries, after key-free text
      from `from`, yields exactly their names, in order. */
  lemma {:induction false} RequestEntriesScan(s: string, from: nat, A: nat, names: seq<string>)
    requires NamesAt(s, A, names) && from <= A && NoKeyStart(s[from..A])
    ensures ScansTo(s, from, names)
    decreases |names|
  {
    if |names| == 1 {
      LastRequestEntry(s, from, A, names[0]);
      assert [names[0]] == names;
    } else {
      RequestEntriesScan(s, A + |RequestEntry(names[0])| - 2, A + |RequestEntry(names[0])| + 1, names[1..]);
      ConsRequestEntry(s, from, A, names[0], names[1..]);
      assert [names[0]] + names[1..] == names;
    }
  }

  /** A request body's entries are written after its head, and the text
      around them is key-free. */
  lemma RequestLayout(names: seq<string>)
    requires forall i :: 0 <= i < |names| ==> Plain(names[i])
    ensures var R := RequestEntries(names); var s := BuildRequest(names);
      && Written(s, |RequestHead|, R) && NoKeyStart(s[0..|RequestHead|])
      && NoKeyStart(s[|RequestHead| + |R|..])
  {
    var R := RequestEntries(names);
    var s := BuildRequest(names);
    var A := |RequestHead|;
    assert NoKeyStart(RequestHead) && NoKeyStart(RequestTail);
    assert s[0..A] == RequestHead;
    assert s[A + |R|..] == RequestTail;
    assert s[A..A + |R|] == R;
    SliceWritten(s, A, R);
  }

  /** Round trip: the request body lists exactly the requested names, in
      input order and with duplicates kept. */
  lemma RequestRoundTrip(names: seq<string>)
    requires forall i :: 0 <= i < |names| ==> Plain(names[i])
    ensures ScanNames(BuildRequest(names), 0) == names
  {
    var s := BuildRequest(names);
    if |names| == 0 {
      assert NoKeyStart(RequestHead) && NoKeyStart(RequestTail);
      NoKeyStartConcat(RequestHead, RequestTail);
      assert s[0..] == RequestHead + RequestTail;
      ScanEnds(s, 0);
    } else {
      forall i | 0 <= i < |names|
        ensures NoChar(names[i], '"')
      {
        assert Plain(names[i]);
      }
      RequestLayout(names);
      NamesLayout(s, |RequestHead|, names);
      RequestEntriesScan(s, 0, |RequestHead|, names);
    }
  }

  const TestNames: seq<string> := ["Device.X_CISCO_COM_LED.RedPwm", "Device.DeviceInfo.Manufacturer"]

  /** The names of the integration test are plain. */
  lemma TestNamesPlain()
    ensures forall i :: 0 <= i < |TestNames| ==> Plain(TestNames[i])
  {
    PlainName(TestNames[0]);
    PlainName(TestNames[1]);
  }

  /** A name made of letters, dots and underscores is written verbatim. */
  lemma PlainName(n: string)
    requires forall i :: 0 <= i < |n| ==> n[i] == '.' || n[i] == '_' || 'A' <= n[i] <= 'Z' || 'a' <= n[i] <= 'z'
    ensures Plain(n) && NoChar(n, '"')
  {
  }

  /** The body posted in the integration test is 98 bytes long, as its
      Content-Length header says. */
  lemma IntegrationTestRequestLength()
    ensures (forall i :: 0 <= i < |TestNames| ==> Plain(TestNames[i]))
      && |BuildRequest(TestNames)| == 98
  {
    TestNamesPlain();
    assert TestNames[1..] == [TestNames[1]];
  }

  // ---------------------------------------------------------------------
  // GetConfiguration end to end

  /** The integration test's exchange: the request for its two names is
      answered with HTTP 200 and the server's response, and GetConfiguration
      reports success with both pairs, names in the order requested. */
  lemma IntegrationTestConfiguration(exchange: string -> Transport)
    requires forall i :: 0 <= i < |TestNames| ==> Plain(TestNames[i])
    requires exchange(BuildRequest(TestNames))
      == Performed(CurleOk, 200, TestStatusLine + TestHeader + ResponseHead + ResponseEntries(TestParams) + ResponseTail)
    ensures GetConfiguration(TestNames, exchange) == ConfigReply(ErrorNone, true, Some(TestParams))
    ensures forall i :: 0 <= i < |TestNames| ==> TestParams[i].name == TestNames[i]
  {
    IntegrationTestResponse();
  }

  /** With no server listening the transfer fails, and GetConfiguration
      fails as a whole: ERROR_GENERAL, success false, no list. */
  lemma ServerDownFails(names: seq<string>, exchange: string -> Transport)
    requires forall i :: 0 <= i < |names| ==> Plain(names[i])
    requires exchange(BuildRequest(names)).Performed? && exchange(BuildRequest(names)).curlCode != CurleOk
    ensures GetConfiguration(names, exchange) == ConfigReply(ErrorGeneral, false, None)
  {
  }
}
