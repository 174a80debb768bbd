/**
 * The Python string operations the text post-processing relies on:
 * `str.isspace`, `str.strip()`, `str.rstrip(chars)`, `str.split('\n')`,
 * `'\n'.join(...)` and `str.split(':', 1)`.
 */
module Text {
  import opened Seqs

  /** Python's `str.isspace()` on one character: the characters `str.strip()` removes. */
  predicate IsSpace(c: char) {
    var n := c as int;
    (0x09 <= n <= 0x0D) || (0x1C <= n <= 0x20) || n == 0x85 || n == 0xA0 || n == 0x1680
    || (0x2000 <= n <= 0x200A) || n == 0x2028 || n == 0x2029 || n == 0x202F
    || n == 0x205F || n == 0x3000
  }

  /** Every character of `s` is whitespace. */
  ghost predicate AllSpace(s: string) {
    forall i :: 0 <= i < |s| ==> IsSpace(s[i])
  }

  /** Neither end of `s` is whitespace: what `str.strip()` promises of its result. */
  predicate IsTrimmed(s: string) {
    s == [] || (!IsSpace(s[0]) && !IsSpace(s[|s| - 1]))
  }

  /** `s.strip()`: whitespace is dropped from both ends until neither end is whitespace. */
  function Strip(s: string): (r: string)
    ensures IsTrimmed(r)
    ensures |r| <= |s|
    decreases |s|
  {
    if |s| > 0 && IsSpace(s[0]) then Strip(s[1..])
    else if |s| > 0 && IsSpace(s[|s| - 1]) then Strip(s[..|s| - 1])
    else s
  }

  /** `s` is whitespace, then `r` starting at position `i`, then whitespace. */
  ghost predicate Padded(s: string, i: nat, r: string) {
    && i + |r| <= |s| && r == s[i..i + |r|]
    && AllSpace(s[..i]) && AllSpace(s[i + |r|..])
  }

  /** `s.strip()` cuts `s` into leading whitespace, the result, and trailing whitespace. */
  lemma {:induction false} StripParts(s: string) returns (i: nat)
    ensures Padded(s, i, Strip(s))
    decreases |s|
  {
    if |s| > 0 && IsSpace(s[0]) {
      var i' := StripParts(s[1..]);
      assert Strip(s) == Strip(s[1..]);
      PaddedCons(s, i', Strip(s));
      i := i' + 1;
    } else if |s| > 0 && IsSpace(s[|s| - 1]) {
      i := StripParts(s[..|s| - 1]);
      assert Strip(s) == Strip(s[..|s| - 1]);
      PaddedSnoc(s, i, Strip(s));
    } else {
      i := 0;
      assert Strip(s) == s;
      assert s[..0] == [] && s[|s|..] == [] && s[0..|s|] == s;
    }
  }

  /** One more whitespace character in front. */
  lemma PaddedCons(s: string, i: nat, r: string)
    requires |s| > 0 && IsSpace(s[0]) && Padded(s[1..], i, r)
    ensures Padded(s, i + 1, r)
  {
    var t := s[1..];
    var e := i + |r|;
    TailSlice(s, i, e);
    TailSlice(s, e, |t|);
    assert t[e..] == t[e..|t|] && s[e + 1..] == s[e + 1..|s|];
    assert s[..i + 1] == [s[0]] + t[..i];
    AllSpaceCons(s[0], t[..i]);
  }

  /** A slice of `s[1..]` is the slice of `s` one position further on. */
  lemma TailSlice(s: string, a: nat, b: nat)
    requires a <= b <= |s| - 1
    ensures s[1..][a..b] == s[a + 1..b + 1]
  {
    forall k | 0 <= k < b - a ensures s[1..][a..b][k] == s[a + 1..b + 1][k] {
      assert s[1..][a + k] == s[a + 1 + k];
    }
  }

  lemma AllSpaceCons(c: char, w: string)
    requires IsSpace(c) && AllSpace(w)
    ensures AllSpace([c] + w)
  {
    var x := [c] + w;
    forall k | 0 <= k < |x| ensures IsSpace(x[k]) {
      if k > 0 { assert x[k] == w[k - 1]; }
    }
  }

  /** One more whitespace character at the end. */
  lemma PaddedSnoc(s: string, i: nat, r: string)
    requires |s| > 0 && IsSpace(s[|s| - 1]) && Padded(s[..|s| - 1], i, r)
    ensures Padded(s, i, r)
  {
    var t := s[..|s| - 1];
    assert s[..i] == t[..i];
    assert s[i..i + |r|] == t[i..i + |r|];
    assert s[i + |r|..] == t[i + |r|..] + [s[|s| - 1]];
  }

  /**
   * The characterization of `strip()`: a trimmed string padded with whitespace
   * on either side strips back to itself.
   */
  lemma {:induction false} StripPadded(p: string, t: string, q: string)
    requires AllSpace(p) && AllSpace(q) && IsTrimmed(t)
    ensures Strip(p + t + q) == t
    decreases |p| + |q|
  {
    var s := p + t + q;
    if |p| > 0 {
      assert s[0] == p[0];
      assert s[1..] == p[1..] + t + q;
      StripPadded(p[1..], t, q);
    } else if |q| > 0 {
      assert s == t + q;
      if t == [] {
        assert s[0] == q[0];
        assert s[1..] == p + t + q[1..];
        StripPadded(p, t, q[1..]);
      } else {
        assert s[0] == t[0];
        assert s[|s| - 1] == q[|q| - 1];
        assert s[..|s| - 1] == p + t + q[..|q| - 1];
        StripPadded(p, t, q[..|q| - 1]);
      }
    } else {
      assert s == t;
    }
  }

  /** `strip()` is the identity on trimmed strings, so it is idempotent. */
  lemma StripTrimmed(t: string)
    requires IsTrimmed(t)
    ensures Strip(t) == t
  {
    assert [] + t + [] == t;
    StripPadded([], t, []);
  }

  /** `strip()` removes only whitespace: every other character keeps its count. */
  lemma StripKeeps(s: string, c: char)
    requires !IsSpace(c)
    ensures multiset(Strip(s))[c] == multiset(s)[c]
  {
    var r := Strip(s);
    var i := StripParts(s);
    var a, b := s[..i], s[i + |r|..];
    assert s == a + r + b;
    assert multiset(s) == multiset(a) + multiset(r) + multiset(b);
    NoneOf(a, c);
    NoneOf(b, c);
  }

  lemma NoneOf(w: string, c: char)
    requires AllSpace(w) && !IsSpace(c)
    ensures multiset(w)[c] == 0
  {
    assert c !in w;
  }

  /** `s.rstrip(chars)`: the characters of `chars` are dropped from the end. */
  function RStrip(s: string, chars: string): (r: string)
    ensures |r| <= |s| && r == s[..|r|]
    ensures forall i :: |r| <= i < |s| ==> s[i] in chars
    ensures r == [] || r[|r| - 1] !in chars
  {
    if |s| > 0 && s[|s| - 1] in chars then
      var r := RStrip(s[..|s| - 1], chars);
      assert forall i :: |r| <= i < |s| - 1 ==> s[i] == s[..|s| - 1][i];
      r
    else
      s
  }

  /** `s.split(sep)`: the pieces between the separators, always at least one. */
  function Split(s: string, sep: char): (r: seq<string>)
    ensures |r| >= 1
    ensures forall i :: 0 <= i < |r| ==> sep !in r[i]
  {
    if |s| == 0 then [""]
    else
      var rest := Split(s[1..], sep);
      if s[0] == sep then [""] + rest
      else [[s[0]] + rest[0]] + rest[1..]
  }

  /** `sep.join(ps)`. */
  function Join(ps: seq<string>, sep: char): string {
    if |ps| == 0 then ""
    else if |ps| == 1 then ps[0]
    else ps[0] + [sep] + Join(ps[1..], sep)
  }

  /** Joining the pieces of a split gives back the string. */
  lemma {:induction false} JoinSplit(s: string, sep: char)
    ensures Join(Split(s, sep), sep) == s
  {
    if |s| > 0 {
      var rest := Split(s[1..], sep);
      JoinSplit(s[1..], sep);
      if s[0] == sep {
        assert ([""] + rest)[1..] == rest;
      } else {
        var ps := [[s[0]] + rest[0]] + rest[1..];
        assert ps[1..] == rest[1..];
        if |rest| > 1 {
          assert rest[1..] == rest[1..][..];
          assert Join(rest, sep) == rest[0] + [sep] + Join(rest[1..], sep);
        }
      }
    }
  }

  /** A piece without separators in front of `tail` extends the first piece of `tail`'s split. */
  lemma {:induction false} SplitPrefix(x: string, tail: string, sep: char)
    requires sep !in x
    ensures Split(x + tail, sep) == [x + Split(tail, sep)[0]] + Split(tail, sep)[1..]
  {
    if x == [] {
      var t := Split(tail, sep);
      assert x + tail == tail;
      assert x + t[0] == t[0];
      assert t == [t[0]] + t[1..];
    } else {
      assert (x + tail)[1..] == x[1..] + tail;
      SplitPrefix(x[1..], tail, sep);
      assert [x[0]] + (x[1..] + Split(tail, sep)[0]) == x + Split(tail, sep)[0];
    }
  }

  /** Splitting a join of separator-free pieces gives back the pieces. */
  lemma {:induction false} SplitJoin(ps: seq<string>, sep: char)
    requires |ps| >= 1
    requires forall i :: 0 <= i < |ps| ==> sep !in ps[i]
    ensures Split(Join(ps, sep), sep) == ps
  {
    if |ps| == 1 {
      SplitPrefix(ps[0], "", sep);
      assert ps[0] + "" == ps[0];
    } else {
      var j := Join(ps[1..], sep);
      SplitJoin(ps[1..], sep);
      assert ps[0] + [sep] + j == ps[0] + ([sep] + j);
      assert Join(ps, sep) == ps[0] + ([sep] + j);
      SplitPrefix(ps[0], [sep] + j, sep);
      assert ([sep] + j)[1..] == j;
      assert Split([sep] + j, sep) == [""] + ps[1..];
      assert ps[0] + "" == ps[0];
      assert ps == [ps[0]] + ps[1..];
    }
  }

  /** `s.split(sep, 1)` on a string that holds `sep`: the parts before and after its first occurrence. */
  function SplitFirst(s: string, sep: char): (r: (string, string))
    requires sep in s
    ensures s == r.0 + [sep] + r.1
    ensures sep !in r.0
  {
    var i := IndexOf(s, sep);
    assert s == s[..i] + [sep] + s[i + 1..];
    (s[..i], s[i + 1..])
  }

  /** The two parts are determined: splitting `k + [sep] + v` with `sep` not in `k` gives `(k, v)`. */
  lemma SplitFirstOf(k: string, v: string, sep: char)
    requires sep !in k
    ensures SplitFirst(k + [sep] + v, sep) == (k, v)
  {
    var s := k + [sep] + v;
    assert s[|k|] == sep;
    assert forall j :: 0 <= j < |k| ==> s[j] == k[j];
    assert IndexOf(s, sep) == |k|;
    assert s[..|k|] == k;
    assert s[|k| + 1..] == v;
  }
}
