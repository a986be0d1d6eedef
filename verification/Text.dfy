/** The string operations of Go's standard library that several of the modelled files share. */
module Text {
  import opened Prelude

  predicate OccursAt(s: string, sub: string, i: nat) {
    i + |sub| <= |s| && s[i..i + |sub|] == sub
  }

  /** `strings.Index` on what is left of `s` from `from` on, as a position in `s`. */
  function IndexFrom(s: string, sub: string, from: nat): (r: Option<nat>)
    requires from <= |s|
    ensures r.Some? ==> from <= r.value && OccursAt(s, sub, r.value)
    ensures r.Some? ==> forall i: nat | from <= i < r.value :: !OccursAt(s, sub, i)
    ensures r.None? ==> forall i: nat | from <= i :: !OccursAt(s, sub, i)
    decreases |s| - from
  {
    if OccursAt(s, sub, from) then Some(from)
    else if from == |s| then None
    else IndexFrom(s, sub, from + 1)
  }

  /** `strings.ReplaceAll`: left to right, occurrences do not overlap. */
  function ReplaceAll(s: string, sub: string, repl: string): string
    requires sub != ""
  {
    if |s| < |sub| then s
    else if s[..|sub|] == sub then repl + ReplaceAll(s[|sub|..], sub, repl)
    else [s[0]] + ReplaceAll(s[1..], sub, repl)
  }

  lemma ReplaceSkips(c: char, s: string, sub: string, repl: string)
    requires sub != "" && c != sub[0]
    ensures ReplaceAll([c] + s, sub, repl) == [c] + ReplaceAll(s, sub, repl)
  {
    var t := [c] + s;
    assert t[1..] == s;
    if |t| >= |sub| {
      assert t[..|sub|][0] == c;
    }
  }

  lemma ReplaceHits(s: string, sub: string, repl: string)
    requires sub != ""
    ensures ReplaceAll(sub + s, sub, repl) == repl + ReplaceAll(s, sub, repl)
  {
    assert (sub + s)[..|sub|] == sub && (sub + s)[|sub|..] == s;
  }

  /** `unicode.IsSpace`. */
  predicate IsSpace(c: char) {
    || c in {' ', '\t', '\n', '\r'}
    || c as int in {0x0B, 0x0C, 0x85, 0xA0, 0x1680, 0x2028, 0x2029, 0x202F, 0x205F, 0x3000}
    || 0x2000 <= c as int <= 0x200A
  }

  function TrimLeft(s: string): string {
    if s != "" && IsSpace(s[0]) then TrimLeft(s[1..]) else s
  }

  function TrimRight(s: string): string {
    if s != "" && IsSpace(s[|s| - 1]) then TrimRight(s[..|s| - 1]) else s
  }

  /** `strings.TrimSpace`. */
  function TrimSpace(s: string): string {
    TrimRight(TrimLeft(s))
  }

  lemma {:induction false} NothingToTrim(s: string)
    requires forall c <- s :: !IsSpace(c)
    ensures TrimSpace(s) == s
  {
    if s != "" {
      assert s[0] in s && s[|s| - 1] in s;
    }
  }

  /** `strings.Split` by one character. */
  function SplitAt(s: string, c: char): (parts: seq<string>)
    ensures parts != []
  {
    if s == "" then [""]
    else
      var rest := SplitAt(s[1..], c);
      if s[0] == c then [""] + rest else [[s[0]] + rest[0]] + rest[1..]
  }

  lemma {:induction false} SplitWithout(s: string, c: char)
    ensures |SplitAt(s, c)| == 1 <==> c !in s
    ensures c !in s ==> SplitAt(s, c) == [s]
    decreases s
  {
    if s != "" {
      assert s == [s[0]] + s[1..];
      SplitWithout(s[1..], c);
    }
  }

  /** The first part ends at the first separator, and the other parts are those of what follows it. */
  lemma {:induction false} SplitFirst(s: string, c: char, rest: string)
    requires c !in s
    ensures SplitAt(s + [c] + rest, c) == [s] + SplitAt(rest, c)
    decreases s
  {
    var all := s + [c] + rest;
    if s == "" {
      assert all[1..] == rest;
    } else {
      assert s == [s[0]] + s[1..];
      SplitFirst(s[1..], c, rest);
      assert all[1..] == s[1..] + [c] + rest;
    }
  }

  lemma {:induction false} SplitTakesApart(s: string, c: char) returns (rest: string)
    requires |SplitAt(s, c)| > 1
    ensures c !in SplitAt(s, c)[0] && s == SplitAt(s, c)[0] + [c] + rest
    ensures SplitAt(rest, c) == SplitAt(s, c)[1..]
    decreases s
  {
    rest := s[1..];
    var parts := SplitAt(rest, c);
    if s[0] != c {
      rest := SplitTakesApart(s[1..], c);
      assert s == [s[0]] + s[1..];
      assert SplitAt(s, c)[1..] == parts[1..];
    } else {
      assert s == [c] + rest && SplitAt(s, c)[1..] == parts;
    }
  }

  // ----- Lexicographic order -----

  predicate LexLeq(a: string, b: string) {
    a == "" || (b != "" && (a[0] < b[0] || (a[0] == b[0] && LexLeq(a[1..], b[1..]))))
  }

  /** The two agree before `i` and the first is smaller there. */
  predicate SmallerAt(a: string, b: string, i: nat) {
    i < |a| && i < |b| && a[..i] == b[..i] && a[i] < b[i]
  }

  lemma SmallerLater(a: string, b: string, i: nat)
    requires a != "" && b != "" && a[0] == b[0]
    ensures SmallerAt(a[1..], b[1..], i) <==> SmallerAt(a, b, i + 1)
  {
    if i + 1 < |a| && i + 1 < |b| {
      assert a[..i + 1] == [a[0]] + a[1..][..i] && b[..i + 1] == [b[0]] + b[1..][..i];
      assert a[1..][..i] == a[..i + 1][1..] && b[1..][..i] == b[..i + 1][1..];
    }
  }

  lemma PrefixTail(a: string, b: string)
    requires a != "" && b != "" && a[0] == b[0]
    ensures a <= b <==> a[1..] <= b[1..]
  {
    assert a == [a[0]] + a[1..] && b == [b[0]] + b[1..];
  }

  /** The order of strings: a prefix comes first, and otherwise the first character that differs decides. */
  lemma {:induction false} LexLeqExactly(a: string, b: string)
    ensures LexLeq(a, b) <==> a <= b || exists i: nat :: SmallerAt(a, b, i)
    decreases a
  {
    if a != "" && b != "" {
      if a[0] == b[0] {
        LexLeqExactly(a[1..], b[1..]);
        PrefixTail(a, b);
        if i: nat :| SmallerAt(a[1..], b[1..], i) {
          SmallerLater(a, b, i);
        }
        if i: nat :| SmallerAt(a, b, i) {
          SmallerLater(a, b, i - 1);
        }
      } else {
        assert a[0] < b[0] ==> SmallerAt(a, b, 0);
        assert forall i: nat | 0 < i < |a| && i < |b| :: a[..i][0] != b[..i][0];
      }
    }
  }

  lemma {:induction false} LexOrder(a: string, b: string, c: string)
    ensures LexLeq(a, b) || LexLeq(b, a)
    ensures LexLeq(a, b) && LexLeq(b, a) ==> a == b
    ensures LexLeq(a, b) && LexLeq(b, c) ==> LexLeq(a, c)
    decreases a
  {
    if a != "" && b != "" {
      LexOrder(a[1..], b[1..], if c == "" then "" else c[1..]);
      if a[0] == b[0] {
        assert a == [a[0]] + a[1..] && b == [b[0]] + b[1..];
      }
    }
  }
}
