/** String operations the launcher relies on: substring search, ASCII
    lowercasing, splitting on a separator and replacing a fixed pattern.
    Strings are sequences of characters; no Unicode case mapping is modelled. */
module Text {

  datatype Option<T> = None | Some(value: T)

  /** `sub` occurs in `s` starting at index `i`. */
  predicate OccursAt(s: string, sub: string, i: int)
  {
    0 <= i && i + |sub| <= |s| && s[i..i + |sub|] == sub
  }

  /** Index of the leftmost occurrence of `sub` in `s`, if any. */
  function Find(s: string, sub: string): (r: Option<nat>)
    ensures r.Some? ==> OccursAt(s, sub, r.value)
    ensures r.Some? ==> forall j :: 0 <= j < r.value ==> !OccursAt(s, sub, j)
    ensures r.None? ==> forall j :: !OccursAt(s, sub, j)
    decreases |s|
  {
    if |sub| > |s| then None
    else if s[..|sub|] == sub then Some(0)
    else
      var rest := Find(s[1..], sub);
      OccursShiftAll(s, sub);
      assert !OccursAt(s, sub, 0);
      match rest
      case None => None
      case Some(k) => Some(k + 1)
  }

  lemma SliceOfSlice(s: string, a: nat, b: nat, c: nat, d: nat)
    requires a <= b <= |s| && c <= d <= b - a
    ensures s[a..b][c..d] == s[a + c..a + d]
  {
    assert forall m :: 0 <= m < d - c ==> s[a..b][c..d][m] == s[a + c + m];
  }

  /** An occurrence one place further into `s` is an occurrence in `s[1..]`. */
  lemma OccursShift(s: string, sub: string, j: nat)
    requires |s| >= 1
    ensures OccursAt(s, sub, j + 1) <==> OccursAt(s[1..], sub, j)
  {
    if j + 1 + |sub| <= |s| {
      SliceOfSlice(s, 1, |s|, j, j + |sub|);
      assert s[1..|s|] == s[1..];
    }
  }

  lemma OccursShiftAll(s: string, sub: string)
    requires |s| >= 1
    ensures forall j :: 0 <= j ==> (OccursAt(s[1..], sub, j) <==> OccursAt(s, sub, j + 1))
    ensures forall j :: 0 < j ==> (OccursAt(s, sub, j) <==> OccursAt(s[1..], sub, j - 1))
  {
    forall j | 0 <= j ensures OccursAt(s[1..], sub, j) <==> OccursAt(s, sub, j + 1) {
      OccursShift(s, sub, j);
    }
    forall j | 0 < j ensures OccursAt(s, sub, j) <==> OccursAt(s[1..], sub, j - 1) {
      OccursShift(s, sub, j - 1);
    }
  }

  /** Substring test, as `str::contains` does it. */
  predicate Contains(s: string, sub: string)
  {
    Find(s, sub).Some?
  }

  /** Every string contains the empty string. */
  lemma ContainsEmpty(s: string)
    ensures Contains(s, "")
  {
    assert OccursAt(s, "", 0);
  }

  /** Containment is transitive: whatever contains `t` contains every part of `t`. */
  lemma ContainsTransitive(s: string, t: string, u: string)
    requires Contains(s, t) && Contains(t, u)
    ensures Contains(s, u)
  {
    var i := Find(s, t).value;
    var k := Find(t, u).value;
    SliceOfSlice(s, i, i + |t|, k, k + |u|);
    assert OccursAt(s, u, i + k);
  }

  /** ASCII lowercasing of one character. */
  function LowerChar(c: char): char
  {
    if 'A' <= c <= 'Z' then (c as int + 32) as char else c
  }

  function Lower(s: string): (r: string)
    ensures |r| == |s|
    ensures forall i :: 0 <= i < |s| ==> r[i] == LowerChar(s[i])
  {
    seq(|s|, i requires 0 <= i < |s| => LowerChar(s[i]))
  }

  lemma LowerIdempotent(s: string)
    ensures Lower(Lower(s)) == Lower(s)
  {
  }

  /** Splits `s` at every `sep`, keeping empty pieces, as `str::split` does:
      `"a;;b"` gives `["a", "", "b"]` and `""` gives `[""]`. */
  function Split(s: string, sep: char): (parts: seq<string>)
    ensures |parts| >= 1
    ensures forall p :: p in parts ==> sep !in p
    decreases |s|
  {
    if s == [] then [""]
    else
      var rest := Split(s[1..], sep);
      if s[0] == sep then [""] + rest
      else [[s[0]] + rest[0]] + rest[1..]
  }

  /** Glues `parts` back together with `sep` between neighbours. */
  function Join(parts: seq<string>, sep: char): string
    requires |parts| >= 1
    decreases |parts|
  {
    if |parts| == 1 then parts[0] else parts[0] + [sep] + Join(parts[1..], sep)
  }

  /** Splitting loses nothing: joining the pieces gives the input back. */
  lemma {:induction false} JoinSplit(s: string, sep: char)
    ensures Join(Split(s, sep), sep) == s
    decreases |s|
  {
    if s != [] {
      var rest := Split(s[1..], sep);
      JoinSplit(s[1..], sep);
      if s[0] == sep {
        assert Split(s, sep) == [""] + rest;
        assert Join([""] + rest, sep) == [sep] + Join(rest, sep);
      } else {
        var parts := Split(s, sep);
        assert parts == [[s[0]] + rest[0]] + rest[1..];
        if |rest| == 1 {
          assert parts == [[s[0]] + rest[0]];
        } else {
          assert parts[1..] == rest[1..];
          assert Join(rest, sep) == rest[0] + [sep] + Join(rest[1..], sep);
        }
      }
    }
  }

  /** Pieces free of `sep`, joined with `sep`, split back into exactly those
      pieces. */
  lemma {:induction false} SplitJoin(parts: seq<string>, sep: char)
    requires |parts| >= 1
    requires forall p :: p in parts ==> sep !in p
    ensures Split(Join(parts, sep), sep) == parts
    decreases |parts|, |parts[0]|
  {
    if |parts| == 1 {
      SplitPiece(parts[0], sep);
    } else {
      var tail := Join(parts[1..], sep);
      SplitJoin(parts[1..], sep);
      SplitPrefix(parts[0], tail, sep);
      assert [parts[0]] + parts[1..] == parts;
    }
  }

  /** A separator-free string is a single piece. */
  lemma {:induction false} SplitPiece(p: string, sep: char)
    requires sep !in p
    ensures Split(p, sep) == [p]
    decreases |p|
  {
    if p != [] {
      SplitPiece(p[1..], sep);
      assert [p[0]] + p[1..] == p;
    }
  }

  /** A separator-free prefix followed by a separator starts a new piece. */
  lemma {:induction false} SplitPrefix(p: string, tail: string, sep: char)
    requires sep !in p
    ensures Split(p + [sep] + tail, sep) == [p] + Split(tail, sep)
    decreases |p|
  {
    var s := p + [sep] + tail;
    if p == [] {
      assert s[0] == sep && s[1..] == tail;
    } else {
      assert s[0] == p[0];
      assert s[1..] == p[1..] + [sep] + tail;
      SplitPrefix(p[1..], tail, sep);
      assert [p[0]] + p[1..] == p;
    }
  }

  /** Replaces every non-overlapping occurrence of `from`, scanning left to
      right, as `str::replace` does. */
  function ReplaceAll(s: string, from: string, to: string): string
    requires |from| > 0
    decreases |s|
  {
    if |s| < |from| then s
    else if s[..|from|] == from then to + ReplaceAll(s[|from|..], from, to)
    else [s[0]] + ReplaceAll(s[1..], from, to)
  }

  /** Without an occurrence of the pattern, nothing is replaced. */
  lemma {:induction false} ReplaceAllAbsent(s: string, from: string, to: string)
    requires |from| > 0
    requires !Contains(s, from)
    ensures ReplaceAll(s, from, to) == s
    decreases |s|
  {
    if |s| >= |from| {
      assert !OccursAt(s, from, 0);
      OccursShiftAll(s, from);
      ReplaceAllAbsent(s[1..], from, to);
      assert [s[0]] + s[1..] == s;
    }
  }

  /** Where `s` does not start with `from`, its first character is kept. */
  lemma ReplaceAllSkip(s: string, from: string, to: string)
    requires |from| > 0 && |s| >= 1 && !OccursAt(s, from, 0)
    ensures ReplaceAll(s, from, to) == [s[0]] + ReplaceAll(s[1..], from, to)
  {
  }

  /** An occurrence at the start of `s` is replaced at once. */
  lemma ReplaceAllAtStart(s: string, from: string, to: string)
    requires |from| > 0 && OccursAt(s, from, 0)
    ensures ReplaceAll(s, from, to) == to + ReplaceAll(s[|from|..], from, to)
  {
    assert s[..|from|] == from;
  }

  /** Substituting `b + c` for `y` in `a + y`. */
  lemma Regroup<T>(x: seq<T>, a: seq<T>, y: seq<T>, b: seq<T>, c: seq<T>)
    requires x == a + y && y == b + c
    ensures x == a + b + c
  {
  }

  /** Substituting `a + b` for `y` in `y + c`. */
  lemma RegroupLeft<T>(x: seq<T>, y: seq<T>, a: seq<T>, b: seq<T>, c: seq<T>)
    requires x == y + c && y == a + b
    ensures x == a + (b + c)
  {
  }

  /** Up to the leftmost occurrence, replace-all copies `s` unchanged. */
  lemma {:induction false} ReplaceAllCopies(s: string, from: string, to: string, k: nat)
    requires |from| > 0 && k + |from| <= |s|
    requires forall j :: 0 <= j < k ==> !OccursAt(s, from, j)
    ensures ReplaceAll(s, from, to) == s[..k] + ReplaceAll(s[k..], from, to)
    decreases k
  {
    if k == 0 {
      assert s[..0] + s[0..] == s;
    } else {
      ReplaceAllCopies(s, from, to, k - 1);
      var u := s[k - 1..];
      assert ReplaceAll(u, from, to) == [s[k - 1]] + ReplaceAll(s[k..], from, to) by {
        assert u[..|from|] == s[k - 1..k - 1 + |from|];
        assert !OccursAt(s, from, k - 1);
        ReplaceAllSkip(u, from, to);
        assert u[1..] == s[k..];
      }
      Regroup(ReplaceAll(s, from, to), s[..k - 1], ReplaceAll(u, from, to), [s[k - 1]], ReplaceAll(s[k..], from, to));
      assert s[..k - 1] + [s[k - 1]] == s[..k];
    }
  }

  /** Replace-all works from the leftmost occurrence: the text before it is
      kept, the occurrence becomes `to`, and the scan resumes right after it. */
  lemma ReplaceAllBefore(s: string, from: string, to: string, i: nat)
    requires |from| > 0
    requires OccursAt(s, from, i)
    requires forall j :: 0 <= j < i ==> !OccursAt(s, from, j)
    ensures ReplaceAll(s, from, to) == s[..i] + to + ReplaceAll(s[i + |from|..], from, to)
  {
    ReplaceAllCopies(s, from, to, i);
    var u := s[i..];
    assert u[..|from|] == s[i..i + |from|];
    ReplaceAllAtStart(u, from, to);
    assert u[|from|..] == s[i + |from|..];
    Regroup(ReplaceAll(s, from, to), s[..i], ReplaceAll(u, from, to), to, ReplaceAll(s[i + |from|..], from, to));
  }

  /** The same, at the occurrence `Find` reports. */
  lemma ReplaceAllFirst(s: string, from: string, to: string, i: nat)
    requires |from| > 0
    requires Find(s, from) == Some(i)
    ensures i + |from| <= |s|
    ensures ReplaceAll(s, from, to) == s[..i] + to + ReplaceAll(s[i + |from|..], from, to)
  {
    ReplaceAllBefore(s, from, to, i);
  }

  /** Decimal digits of a natural number, most significant first. */
  function NatToString(n: nat): (r: string)
    ensures |r| >= 1
    ensures forall i :: 0 <= i < |r| ==> '0' <= r[i] <= '9'
    ensures r[0] == '0' ==> r == "0"
    decreases n
  {
    var d := [(48 + n % 10) as char];
    if n < 10 then d else NatToString(n / 10) + d
  }

  /** The number a string of decimal digits denotes, most significant first. */
  function DigitsValue(s: string): nat
    requires forall i :: 0 <= i < |s| ==> '0' <= s[i] <= '9'
    decreases |s|
  {
    if s == [] then 0
    else DigitsValue(s[..|s| - 1]) * 10 + (s[|s| - 1] as int - '0' as int)
  }

  /** The digits rendered for `n` denote `n`. */
  lemma {:induction false} NatToStringValue(n: nat)
    ensures DigitsValue(NatToString(n)) == n
    decreases n
  {
    if n >= 10 {
      var r := NatToString(n);
      NatToStringValue(n / 10);
      assert r[..|r| - 1] == NatToString(n / 10);
    }
  }

  /** Decimal rendering of an integer, with a leading `-` when negative, as
      `format!("{}", n)` prints an `i32`. */
  function IntToString(n: int): (r: string)
    ensures |r| >= 1
    ensures (r[0] == '-') <==> n < 0
  {
    if n < 0 then "-" + NatToString(-n) else NatToString(n)
  }

  /** The rendering of `n` is its sign followed by digits denoting `|n|`. */
  lemma IntToStringValue(n: int)
    ensures var r := IntToString(n);
      if n < 0 then r[0] == '-' && r[1..] == NatToString(-n) && DigitsValue(r[1..]) == -n
      else DigitsValue(r) == n
  {
    if n < 0 {
      assert IntToString(n)[1..] == NatToString(-n);
      NatToStringValue(-n);
    } else {
      NatToStringValue(n);
    }
  }
}
