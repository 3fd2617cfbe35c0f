/**
 * `tokenize`: every maximal non-empty run of characters other than the
 * delimiter becomes a key of the output map, set to 0.
 */
module Tokenizer {

  /** `find_first_not_of(d, pos)`: the first index from `pos` on not holding `d`, or `|s|` for none. */
  function FirstNotOf(s: string, d: char, pos: nat): (r: nat)
    requires pos <= |s|
    ensures pos <= r <= |s|
    ensures forall k :: pos <= k < r ==> s[k] == d
    ensures r < |s| ==> s[r] != d
    decreases |s| - pos
  {
    if pos == |s| || s[pos] != d then pos else FirstNotOf(s, d, pos + 1)
  }

  /** `find(d, pos)`: the first index from `pos` on holding `d`, or `|s|` for none. */
  function Find(s: string, d: char, pos: nat): (r: nat)
    requires pos <= |s|
    ensures pos <= r <= |s|
    ensures forall k :: pos <= k < r ==> s[k] != d
    ensures r < |s| ==> s[r] == d
    decreases |s| - pos
  {
    if pos == |s| || s[pos] == d then pos else Find(s, d, pos + 1)
  }

  /** The length of the run of non-delimiter characters at the front of `s`. */
  function RunLength(s: string, d: char): (n: nat)
    ensures n <= |s|
    ensures s != [] && s[0] != d ==> n >= 1
  {
    if s == [] || s[0] == d then 0 else 1 + RunLength(s[1..], d)
  }

  /** The tokens of `s`, read character by character from the front. */
  function Tokens(s: string, d: char): seq<string>
    decreases |s|
  {
    if s == [] then []
    else if s[0] == d then Tokens(s[1..], d)
    else
      var n := RunLength(s, d);
      [s[..n]] + Tokens(s[n..], d)
  }

  /** A token is a non-empty text without the delimiter. */
  predicate IsToken(t: string, d: char) {
    |t| > 0 && forall k :: 0 <= k < |t| ==> t[k] != d
  }

  lemma {:induction false} RunLengthShape(s: string, d: char)
    ensures IsToken(s[..RunLength(s, d)], d) || RunLength(s, d) == 0
    ensures RunLength(s, d) < |s| ==> s[RunLength(s, d)] == d
  {
    if s != [] && s[0] != d {
      RunLengthShape(s[1..], d);
      var n := RunLength(s, d);
      assert s[..n] == [s[0]] + s[1..][..n - 1];
    }
  }

  /** Every token is non-empty and free of the delimiter. */
  lemma {:induction false} TokensAreTokens(s: string, d: char)
    ensures forall t :: t in Tokens(s, d) ==> IsToken(t, d)
    decreases |s|
  {
    if s != [] {
      if s[0] == d {
        TokensAreTokens(s[1..], d);
      } else {
        RunLengthShape(s, d);
        TokensAreTokens(s[RunLength(s, d)..], d);
      }
    }
  }

  /** Delimiters skipped by `find_first_not_of` hold no token. */
  lemma {:induction false} SkipDelimiters(s: string, d: char, pos: nat)
    requires pos <= |s|
    ensures Tokens(s[pos..], d) == Tokens(s[FirstNotOf(s, d, pos)..], d)
    decreases |s| - pos
  {
    if pos < |s| && s[pos] == d {
      assert s[pos..][1..] == s[pos + 1..];
      SkipDelimiters(s, d, pos + 1);
    }
  }

  lemma {:induction false} RunLengthFind(s: string, d: char, pos: nat)
    requires pos <= |s|
    ensures RunLength(s[pos..], d) == Find(s, d, pos) - pos
    decreases |s| - pos
  {
    if pos < |s| && s[pos] != d {
      assert s[pos..][1..] == s[pos + 1..];
      RunLengthFind(s, d, pos + 1);
    }
  }

  /** From a non-delimiter, the first token runs up to the next delimiter found by `find`. */
  lemma TakeToken(s: string, d: char, start: nat)
    requires start < |s| && s[start] != d
    ensures Tokens(s[start..], d) == [s[start..Find(s, d, start)]] + Tokens(s[Find(s, d, start)..], d)
  {
    var e := Find(s, d, start);
    RunLengthFind(s, d, start);
    assert s[start..][..e - start] == s[start..e];
    assert s[start..][e - start..] == s[e..];
  }

  /**
   * `tokenize(str, delim, out)`: afterwards the keys of the map are those it
   * had and the tokens of `str`; every token maps to 0 and every other key
   * keeps its value.
   */
  method Tokenize(s: string, d: char, out: map<string, int>) returns (res: map<string, int>)
    ensures forall k :: k in res <==> k in out || k in Tokens(s, d)
    ensures forall k :: k in Tokens(s, d) ==> res[k] == 0
    ensures forall k :: k in out && k !in Tokens(s, d) ==> res[k] == out[k]
  {
    res := out;
    var end := 0;
    ghost var done: seq<string> := [];
    var start := FirstNotOf(s, d, end);
    SkipDelimiters(s, d, end);
    while start < |s|
      invariant end <= start <= |s| && start == FirstNotOf(s, d, end)
      invariant Tokens(s, d) == done + Tokens(s[start..], d)
      invariant forall k :: k in res <==> k in out || k in done
      invariant forall k :: k in done ==> res[k] == 0
      invariant forall k :: k in out && k !in done ==> res[k] == out[k]
      decreases |s| - start
    {
      TakeToken(s, d, start);
      end := Find(s, d, start);
      res := res[s[start..end] := 0];
      done := done + [s[start..end]];
      start := FirstNotOf(s, d, end);
      SkipDelimiters(s, d, end);
    }
  }

  /** The tokens joined with the delimiter between neighbours. */
  function Join(ts: seq<string>, d: char): string
    decreases |ts|
  {
    if ts == [] then ""
    else if |ts| == 1 then ts[0]
    else ts[0] + [d] + Join(ts[1..], d)
  }

  lemma {:induction false} TokenThenRest(t: string, rest: string, d: char)
    requires IsToken(t, d)
    requires rest == [] || rest[0] == d
    ensures Tokens(t + rest, d) == [t] + Tokens(rest, d)
  {
    var s := t + rest;
    RunLengthPrefix(t, rest, d);
    assert s[..|t|] == t;
    assert s[|t|..] == rest;
  }

  lemma {:induction false} RunLengthPrefix(t: string, rest: string, d: char)
    requires forall k :: 0 <= k < |t| ==> t[k] != d
    requires rest == [] || rest[0] == d
    ensures RunLength(t + rest, d) == |t|
    decreases |t|
  {
    if t != [] {
      assert (t + rest)[1..] == t[1..] + rest;
      RunLengthPrefix(t[1..], rest, d);
    } else {
      assert t + rest == rest;
    }
  }

  /** Splitting the joined tokens gives them back. */
  lemma {:induction false} JoinRoundTrip(ts: seq<string>, d: char)
    requires forall i :: 0 <= i < |ts| ==> IsToken(ts[i], d)
    ensures Tokens(Join(ts, d), d) == ts
    decreases |ts|
  {
    if |ts| == 1 {
      TokenThenRest(ts[0], "", d);
      assert ts[0] + "" == ts[0];
    } else if |ts| > 1 {
      var rest := Join(ts[1..], d);
      JoinRoundTrip(ts[1..], d);
      TokenThenRest(ts[0], [d] + rest, d);
      assert ts[0] + [d] + rest == ts[0] + ([d] + rest);
      assert ([d] + rest)[1..] == rest;
    }
  }
}
