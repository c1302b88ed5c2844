/** The string operations the engine relies on, written the way Python
    performs them: `str.endswith`, `str.replace(p, "")`, `str(int)`. */
module Text {
  import opened Wrappers

  /** Python `s.endswith(suffix)`: `s` is some stem followed by `suffix`. */
  function EndsWith(s: string, suffix: string): (b: bool)
    ensures b ==> |suffix| <= |s| && s == s[..|s| - |suffix|] + suffix
    ensures forall stem {:trigger stem + suffix} :: s == stem + suffix ==> b
  {
    |suffix| <= |s| && s[|s| - |suffix|..] == suffix
  }

  /** `p` occurs in `s` starting at index `i`. */
  predicate OccursAt(s: string, p: string, i: nat)
  {
    i + |p| <= |s| && s[i..i + |p|] == p
  }

  /** Python `s.replace(p, "")` for a non-empty `p`: scanning left to right,
      every non-overlapping occurrence of `p` is deleted. */
  function RemoveAll(s: string, p: string): (r: string)
    requires |p| > 0
    ensures |r| <= |s|
    decreases |s|
  {
    if |s| < |p| then s
    else if s[..|p|] == p then RemoveAll(s[|p|..], p)
    else [s[0]] + RemoveAll(s[1..], p)
  }

  /** An occurrence in the tail of `s` is an occurrence in `s`, one index on. */
  lemma OccursInTail(s: string, p: string, i: nat)
    requires |s| > 0
    ensures OccursAt(s[1..], p, i) <==> OccursAt(s, p, i + 1)
  {
    if i + 1 + |p| <= |s| {
      assert s[1..][i..i + |p|] == s[i + 1..i + 1 + |p|];
    }
  }

  /** Removing a pattern leaves the string as it is when the pattern does not
      occur in it, and makes it strictly shorter when it does. */
  lemma {:induction false} RemoveAllChangesIff(s: string, p: string)
    requires |p| > 0
    ensures (forall i: nat :: !OccursAt(s, p, i)) ==> RemoveAll(s, p) == s
    ensures (exists i: nat :: OccursAt(s, p, i)) ==> |RemoveAll(s, p)| < |s|
    decreases |s|
  {
    if |s| < |p| {
    } else if s[..|p|] == p {
      assert OccursAt(s, p, 0);
      assert |RemoveAll(s[|p|..], p)| <= |s| - |p|;
    } else {
      RemoveAllChangesIff(s[1..], p);
      assert !OccursAt(s, p, 0);
      if forall i: nat :: !OccursAt(s, p, i) {
        forall i: nat ensures !OccursAt(s[1..], p, i) {
          OccursInTail(s, p, i);
        }
      } else {
        var i: nat :| OccursAt(s, p, i);
        OccursInTail(s, p, i - 1);
      }
    }
  }

  /** No proper prefix of `p` is also a suffix of it, so two occurrences of
      `p` can never overlap. */
  predicate Unbordered(p: string)
  {
    forall k :: 0 < k < |p| ==> p[..k] != p[|p| - k..]
  }

  /** Deletion really reaches every occurrence: for an unbordered `p`, a name
      taken apart at its first occurrence of `p` loses that occurrence, keeps
      the part before it, and has its remainder treated the same way. */
  lemma {:induction false} RemoveAllAfterClean(a: string, p: string, b: string)
    requires |p| > 0 && Unbordered(p)
    requires forall i: nat :: !OccursAt(a, p, i)
    ensures RemoveAll(a + p + b, p) == a + RemoveAll(b, p)
    decreases |a|
  {
    var s := a + p + b;
    if a == [] {
      assert s == p + b;
      assert s[..|p|] == p && s[|p|..] == b;
    } else {
      assert !OccursAt(a, p, 0);
      if |a| >= |p| {
        assert s[..|p|] == a[..|p|];
      } else {
        // an occurrence at 0 would make p[|a|..] a border of p
        assert p[..|p| - |a|] != p[|a|..];
        assert s[..|p|] == a + p[..|p| - |a|];
      }
      assert RemoveAll(s, p) == [s[0]] + RemoveAll(s[1..], p);
      forall i: nat ensures !OccursAt(a[1..], p, i) {
        OccursInTail(a, p, i);
      }
      assert s[1..] == a[1..] + p + b;
      RemoveAllAfterClean(a[1..], p, b);
      assert [s[0]] + (a[1..] + RemoveAll(b, p)) == a + RemoveAll(b, p);
    }
  }

  /** When `p` occurs in `s` only as its suffix, removing every occurrence
      strips exactly that suffix. */
  lemma {:induction false} RemoveAllTrailingOnly(s: string, p: string)
    requires |p| > 0 && EndsWith(s, p)
    requires forall i: nat :: i < |s| - |p| ==> !OccursAt(s, p, i)
    ensures RemoveAll(s, p) + p == s
    decreases |s|
  {
    if |s| == |p| {
      assert s[..|p|] == p;
      assert RemoveAll(s, p) == RemoveAll([], p) == [];
    } else {
      var t := s[1..];
      assert !OccursAt(s, p, 0);
      assert RemoveAll(s, p) == [s[0]] + RemoveAll(t, p);
      forall i: nat | i < |t| - |p| ensures !OccursAt(t, p, i) {
        OccursInTail(s, p, i);
      }
      assert t[|t| - |p|..] == s[|s| - |p|..];
      RemoveAllTrailingOnly(t, p);
      calc {
        RemoveAll(s, p) + p;
        [s[0]] + (RemoveAll(t, p) + p);
        [s[0]] + t;
        s;
      }
    }
  }

  /** The decimal digit character for `d`. */
  function DigitChar(d: nat): (c: char)
    requires d < 10
    ensures '0' <= c <= '9'
  {
    ('0' as int + d) as char
  }

  predicate IsDigits(s: string)
  {
    |s| > 0 && forall k :: 0 <= k < |s| ==> '0' <= s[k] <= '9'
  }

  /** Decimal rendering of a natural number, without leading zeros. */
  function NatToString(n: nat): (r: string)
    ensures IsDigits(r)
    ensures n > 0 ==> r[0] != '0'
  {
    if n < 10 then [DigitChar(n)] else NatToString(n / 10) + [DigitChar(n % 10)]
  }

  /** Python `str(i)` for an integer: an optional minus sign and the digits. */
  function IntToString(i: int): (r: string)
    ensures '_' !in r
    ensures |r| > 0
  {
    if i < 0 then "-" + NatToString(-i) else NatToString(i)
  }

  /** The value of a string of decimal digits. */
  function ParseNat(s: string): nat
    requires forall k :: 0 <= k < |s| ==> '0' <= s[k] <= '9'
  {
    if |s| == 0 then 0 else ParseNat(s[..|s| - 1]) * 10 + (s[|s| - 1] as int - '0' as int)
  }

  /** Reads back what `str(int)` writes; `None` for anything else. */
  function ParseInt(s: string): Option<int>
  {
    if |s| > 0 && s[0] == '-' then
      if IsDigits(s[1..]) then Some(0 - ParseNat(s[1..])) else None
    else if IsDigits(s) then Some(ParseNat(s))
    else None
  }

  lemma {:induction false} ParseNatToString(n: nat)
    ensures ParseNat(NatToString(n)) == n
  {
    if n >= 10 {
      var s := NatToString(n);
      assert s[..|s| - 1] == NatToString(n / 10);
      ParseNatToString(n / 10);
    }
  }

  /** `str(int)` is read back exactly: the rendering loses nothing. */
  lemma IntToStringRoundTrip(i: int)
    ensures ParseInt(IntToString(i)) == Some(i)
  {
    var s := IntToString(i);
    if i < 0 {
      assert s[0] == '-' && s[1..] == NatToString(-i);
      ParseNatToString(-i);
    } else {
      assert s == NatToString(i);
      assert s[0] != '-';
      ParseNatToString(i);
    }
  }

  /** Splits `s` at its last occurrence of `c`: `s == prefix + [c] + suffix`
      with no `c` in `suffix`; `None` when `c` does not occur. */
  function SplitLast(s: string, c: char): (r: Option<(string, string)>)
    ensures r.None? <==> c !in s
    ensures r.Some? ==> s == r.value.0 + [c] + r.value.1 && c !in r.value.1
    decreases |s|
  {
    if |s| == 0 then None
    else if s[|s| - 1] == c then Some((s[..|s| - 1], []))
    else match SplitLast(s[..|s| - 1], c)
      case None => None
      case Some((pre, post)) => Some((pre, post + [s[|s| - 1]]))
  }

  /** The split point found is the last one, whatever `a` contains. */
  lemma {:induction false} SplitLastAt(a: string, c: char, b: string)
    requires c !in b
    ensures SplitLast(a + [c] + b, c) == Some((a, b))
    decreases |b|
  {
    var s := a + [c] + b;
    if b == [] {
      assert s[..|s| - 1] == a;
    } else {
      var b' := b[..|b| - 1];
      assert s[..|s| - 1] == a + [c] + b';
      assert s[|s| - 1] == b[|b| - 1];
      SplitLastAt(a, c, b');
      assert b' + [b[|b| - 1]] == b;
    }
  }
}
