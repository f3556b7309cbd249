/** The std::string searches the response parser is built from. */
module Text {
  import opened Types

  /** `pat` occurs in `s` starting at position i. */
  predicate IsAt(s: string, pat: string, i: nat)
  {
    i + |pat| <= |s| && s[i..i + |pat|] == pat
  }

  /** No character of t is c. */
  predicate NoChar(t: string, c: char)
  {
    forall i :: 0 <= i < |t| ==> t[i] != c
  }

  /** std::string::find(pat, from): the first occurrence of `pat` at or after
      `from`; None where the source gets npos. */
  function Find(s: string, pat: string, from: nat): (r: Option<nat>)
    ensures r.Some? ==> from <= r.value && IsAt(s, pat, r.value)
    decreases |s| - from
  {
    if from + |pat| > |s| then None
    else if IsAt(s, pat, from) then Some(from)
    else Find(s, pat, from + 1)
  }

  /** The search skips no occurrence: before the position it returns, and
      anywhere after `from` when it fails, `pat` does not occur. */
  lemma {:induction false} FindIsFirst(s: string, pat: string, from: nat)
    ensures Find(s, pat, from).Some? ==>
      forall j :: from <= j < Find(s, pat, from).value ==> !IsAt(s, pat, j)
    ensures Find(s, pat, from).None? ==> forall j :: from <= j ==> !IsAt(s, pat, j)
    decreases |s| - from
  {
    if from + |pat| <= |s| && !IsAt(s, pat, from) {
      FindIsFirst(s, pat, from + 1);
    }
  }

  /** Conversely, the first occurrence at or after `from` is what the
      search returns. */
  lemma {:induction false} FindFirst(s: string, pat: string, from: nat, k: nat)
    requires from <= k && IsAt(s, pat, k)
    requires forall j :: from <= j < k ==> !IsAt(s, pat, j)
    ensures Find(s, pat, from) == Some(k)
    decreases k - from
  {
    if from < k {
      FindFirst(s, pat, from + 1, k);
    }
  }

  /** And a search past every occurrence fails. */
  lemma {:induction false} FindNone(s: string, pat: string, from: nat)
    requires forall j :: from <= j ==> !IsAt(s, pat, j)
    ensures Find(s, pat, from) == None
    decreases |s| - from
  {
    if from + |pat| <= |s| {
      FindNone(s, pat, from + 1);
    }
  }

  /** std::string::find with a one-character pattern, stated per character. */
  function FindChar(s: string, c: char, from: nat): (r: Option<nat>)
    ensures r.Some? ==> from <= r.value < |s| && s[r.value] == c
    decreases |s| - from
  {
    if from >= |s| then None
    else if s[from] == c then Some(from)
    else FindChar(s, c, from + 1)
  }

  /** The character search skips no occurrence either. */
  lemma {:induction false} FindCharIsFirst(s: string, c: char, from: nat)
    ensures FindChar(s, c, from).Some? ==>
      forall j :: from <= j < FindChar(s, c, from).value ==> s[j] != c
    ensures FindChar(s, c, from).None? ==> forall j :: from <= j < |s| ==> s[j] != c
    decreases |s| - from
  {
    if from < |s| && s[from] != c {
      FindCharIsFirst(s, c, from + 1);
    }
  }

  /** The first occurrence of c at or after `from` is what the character
      search returns. */
  lemma {:induction false} FindCharAt(s: string, c: char, from: nat, k: nat)
    requires from <= k < |s| && s[k] == c
    requires forall j :: from <= j < k ==> s[j] != c
    ensures FindChar(s, c, from) == Some(k)
    decreases k - from
  {
    if from < k {
      FindCharAt(s, c, from + 1, k);
    }
  }

  /** A character search past every occurrence fails. */
  lemma {:induction false} FindCharNone(s: string, c: char, from: nat)
    requires forall j :: from <= j < |s| ==> s[j] != c
    ensures FindChar(s, c, from) == None
    decreases |s| - from
  {
    if from < |s| {
      FindCharNone(s, c, from + 1);
    }
  }

  /** The per-character search agrees with the general one. */
  lemma {:induction false} FindCharIsFind(s: string, c: char, from: nat)
    ensures FindChar(s, c, from) == Find(s, [c], from)
    decreases |s| - from
  {
    if from < |s| {
      assert IsAt(s, [c], from) <==> s[from] == c by {
        assert |s[from..from + 1]| == 1 && s[from..from + 1][0] == s[from];
      }
      if s[from] != c {
        FindCharIsFind(s, c, from + 1);
      }
    }
  }
}
