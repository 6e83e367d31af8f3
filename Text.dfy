/**
 The few Python string operations the scraper relies on, on strings as
 sequences of Unicode scalar values: `str.isspace`/`str.strip`, the
 substring test `sub in s`, `str.replace` with one-character arguments, and
 a character count used to state what these operations keep.
 */
module Text {

  /** Python's `str.isspace()` for one character: the characters
      `str.strip()` removes when it is given no argument. */
  predicate IsSpace(c: char) {
    || ('\t' <= c <= '\r')             // \t \n \x0b \x0c \r
    || ('\U{1c}' <= c <= '\U{1f}')     // file, group, record and unit separators
    || c == ' ' || c == '\U{85}' || c == '\U{a0}' || c == '\U{1680}'
    || ('\U{2000}' <= c <= '\U{200a}')
    || c == '\U{2028}' || c == '\U{2029}' || c == '\U{202f}' || c == '\U{205f}'
    || c == '\U{3000}'
  }

  ghost predicate AllSpace(s: string) {
    forall k :: 0 <= k < |s| ==> IsSpace(s[k])
  }

  function TrimStart(s: string): string {
    if s != [] && IsSpace(s[0]) then TrimStart(s[1..]) else s
  }

  function TrimEnd(s: string): string {
    if s != [] && IsSpace(s[|s| - 1]) then TrimEnd(s[..|s| - 1]) else s
  }

  /** `s.strip()` */
  function Strip(s: string): string {
    TrimEnd(TrimStart(s))
  }

  lemma {:induction false} TrimStartSplits(s: string) returns (i: nat)
    ensures i <= |s| && TrimStart(s) == s[i..] && AllSpace(s[..i])
    ensures i < |s| ==> !IsSpace(s[i])
  {
    if s != [] && IsSpace(s[0]) {
      var j := TrimStartSplits(s[1..]);
      i := j + 1;
      assert s[1..][j..] == s[i..];
      assert s[..i] == [s[0]] + s[1..][..j];
    } else {
      i := 0;
    }
  }

  lemma {:induction false} TrimEndSplits(s: string) returns (j: nat)
    ensures j <= |s| && TrimEnd(s) == s[..j] && AllSpace(s[j..])
    ensures 0 < j ==> !IsSpace(s[j - 1])
  {
    if s != [] && IsSpace(s[|s| - 1]) {
      var t := s[..|s| - 1];
      j := TrimEndSplits(t);
      assert t[..j] == s[..j];
      forall k | 0 <= k < |s[j..]| ensures IsSpace(s[j..][k]) {
        if j + k < |t| {
          assert s[j..][k] == t[j..][k];
        } else {
          assert s[j..][k] == s[|s| - 1];
        }
      }
      if 0 < j {
        assert s[j - 1] == t[j - 1];
      }
    } else {
      j := |s|;
    }
  }

  /** What `strip` keeps: one contiguous piece of its argument, with only
      whitespace cut away on either side, and no whitespace left at either
      end of the result. */
  lemma StripKeepsInfix(s: string) returns (i: nat, j: nat)
    ensures i <= j <= |s| && Strip(s) == s[i..j]
    ensures AllSpace(s[..i]) && AllSpace(s[j..])
    ensures Strip(s) != [] ==> !IsSpace(Strip(s)[0]) && !IsSpace(Strip(s)[|Strip(s)| - 1])
  {
    i := TrimStartSplits(s);
    var t := s[i..];
    var m := TrimEndSplits(t);
    j := i + m;
    assert t[..m] == s[i..j];
    assert t[m..] == s[j..];
    if m > 0 {
      assert Strip(s)[0] == s[i];
    }
  }

  /** `sub` occurs in `s` starting at index `i`. */
  ghost predicate OccursAt(s: string, sub: string, i: int) {
    0 <= i && i + |sub| <= |s| && s[i..i + |sub|] == sub
  }

  /** Python's substring test `sub in s`. */
  function Contains(s: string, sub: string): bool
    decreases |s|
  {
    |sub| <= |s| && (s[..|sub|] == sub || Contains(s[1..], sub))
  }

  lemma {:induction false} ContainsIffOccurs(s: string, sub: string)
    ensures Contains(s, sub) <==> exists i :: OccursAt(s, sub, i)
    decreases |s|
  {
    if |sub| <= |s| {
      if s[..|sub|] == sub {
        assert OccursAt(s, sub, 0);
      } else if Contains(s[1..], sub) {
        ContainsIffOccurs(s[1..], sub);
        var i :| OccursAt(s[1..], sub, i);
        assert s[1..][i..i + |sub|] == s[i + 1..i + 1 + |sub|];
        assert OccursAt(s, sub, i + 1);
      } else {
        ContainsIffOccurs(s[1..], sub);
        forall i | 0 < i && OccursAt(s, sub, i) ensures OccursAt(s[1..], sub, i - 1) {
          assert s[1..][i - 1..i - 1 + |sub|] == s[i..i + |sub|];
        }
      }
    }
  }

  /** Number of occurrences of `c` in `s`. */
  function Count(c: char, s: string): nat {
    if s == [] then 0 else (if s[0] == c then 1 else 0) + Count(c, s[1..])
  }

  lemma {:induction false} CountConcat(c: char, s: string, t: string)
    ensures Count(c, s + t) == Count(c, s) + Count(c, t)
  {
    if s != [] {
      assert (s + t)[1..] == s[1..] + t;
      CountConcat(c, s[1..], t);
    } else {
      assert s + t == t;
    }
  }

  /** `s.replace(from, to)` for one-character `from` and `to`. */
  function ReplaceChar(s: string, from: char, to: char): (r: string)
    ensures |r| == |s|
    ensures forall k :: 0 <= k < |s| ==> r[k] == if s[k] == from then to else s[k]
  {
    if s == [] then [] else [if s[0] == from then to else s[0]] + ReplaceChar(s[1..], from, to)
  }

  /** `s.replace(c, "")`. */
  function RemoveChar(s: string, c: char): (r: string)
    ensures |r| == |s| - Count(c, s)
    ensures forall k :: 0 <= k < |r| ==> r[k] != c
  {
    if s == [] then [] else (if s[0] == c then [] else [s[0]]) + RemoveChar(s[1..], c)
  }

  /** Deleting `c` from one character keeps it exactly when it is not `c`. */
  lemma RemoveCharOne(x: char, c: char)
    ensures RemoveChar([x], c) == if x == c then [] else [x]
  {
    assert [x][1..] == [];
  }

  /** Deleting `c` works piecewise, so every other character stays, in order. */
  lemma {:induction false} RemoveCharConcat(s: string, t: string, c: char)
    ensures RemoveChar(s + t, c) == RemoveChar(s, c) + RemoveChar(t, c)
  {
    if s == [] {
      assert s + t == t;
    } else {
      assert (s + t)[0] == s[0];
      assert (s + t)[1..] == s[1..] + t;
      RemoveCharConcat(s[1..], t, c);
      var head := if s[0] == c then [] else [s[0]];
      assert head + (RemoveChar(s[1..], c) + RemoveChar(t, c))
          == head + RemoveChar(s[1..], c) + RemoveChar(t, c);
    }
  }

  lemma {:induction false} ReplaceCharCounts(s: string, from: char, to: char, d: char)
    requires from != to
    ensures Count(d, ReplaceChar(s, from, to)) ==
      if d == to then Count(to, s) + Count(from, s)
      else if d == from then 0
      else Count(d, s)
  {
    if s != [] {
      ReplaceCharCounts(s[1..], from, to, d);
      assert ReplaceChar(s, from, to)[1..] == ReplaceChar(s[1..], from, to);
    }
  }

  lemma {:induction false} RemoveCharCounts(s: string, c: char, d: char)
    ensures Count(d, RemoveChar(s, c)) == if d == c then 0 else Count(d, s)
  {
    if s != [] {
      RemoveCharCounts(s[1..], c, d);
      CountConcat(d, if s[0] == c then [] else [s[0]], RemoveChar(s[1..], c));
    }
  }

  /** A character that does not occur is counted zero times. */
  lemma {:induction false} CountAbsent(c: char, s: string)
    requires forall k :: 0 <= k < |s| ==> s[k] != c
    ensures Count(c, s) == 0
  {
    if s != [] {
      assert forall k :: 0 <= k < |s[1..]| ==> s[1..][k] == s[k + 1];
      CountAbsent(c, s[1..]);
    }
  }

  /** Replacing one character and deleting another, different from both,
      can be done in either order. */
  lemma {:induction false} ReplaceRemoveCommute(s: string, from: char, to: char, c: char)
    requires c != from && c != to
    ensures RemoveChar(ReplaceChar(s, from, to), c) == ReplaceChar(RemoveChar(s, c), from, to)
  {
    if s != [] {
      ReplaceRemoveCommute(s[1..], from, to, c);
      var t := ReplaceChar(s, from, to);
      assert t[1..] == ReplaceChar(s[1..], from, to);
      var head := if s[0] == c then [] else [s[0]];
      assert ReplaceChar(head + RemoveChar(s[1..], c), from, to)
          == ReplaceChar(head, from, to) + ReplaceChar(RemoveChar(s[1..], c), from, to) by {
        ReplaceCharConcat(head, RemoveChar(s[1..], c), from, to);
      }
    }
  }

  lemma {:induction false} ReplaceCharConcat(s: string, t: string, from: char, to: char)
    ensures ReplaceChar(s + t, from, to) == ReplaceChar(s, from, to) + ReplaceChar(t, from, to)
  {
    var r := ReplaceChar(s + t, from, to);
    var r' := ReplaceChar(s, from, to) + ReplaceChar(t, from, to);
    assert |r| == |r'|;
    forall k | 0 <= k < |r| ensures r[k] == r'[k] {
      if k < |s| { assert (s + t)[k] == s[k]; } else { assert (s + t)[k] == t[k - |s|]; }
    }
  }
}
