/** cli/client/config/writer.go: the names of identities, environments and contexts. */
module Names {
  import opened Text

  predicate NameStart(c: char) {
    'a' <= c <= 'z' || '0' <= c <= '9'
  }

  /** `ValidName`: a lower-case letter or digit, then up to 63 of those or hyphens. */
  predicate ValidName(name: string) {
    && 1 <= |name| <= 64
    && NameStart(name[0])
    && forall i | 0 <= i < |name| :: NameStart(name[i]) || name[i] == '-'
  }

  predicate NameChar(c: char) {
    NameStart(c) || c == '-'
  }

  // ----- The steps of `SanitizeName` -----

  /**
   * `unicode.ToLower`, as far as the charset can tell: the Kelvin sign and the dotted capital I are the only
   * characters outside ASCII that lower into it; every other one is left outside.
   */
  function Lower(c: char): char {
    if 'A' <= c <= 'Z' then c - 'A' + 'a'
    else if c == '\U{212A}' then 'k'
    else if c == '\U{130}' then 'i'
    else c
  }

  lemma LowersToLetters(i: nat)
    requires i < 26
    ensures Lower("ABCDEFGHIJKLMNOPQRSTUVWXYZ"[i]) == "abcdefghijklmnopqrstuvwxyz"[i]
  {
  }

  function ToLower(s: string): string {
    if s == "" then "" else [Lower(s[0])] + ToLower(s[1..])
  }

  /** Every run of characters outside the charset becomes one hyphen. */
  function Hyphenate(s: string): string {
    if s == "" then ""
    else if NameChar(s[0]) then [s[0]] + Hyphenate(s[1..])
    else if |s| > 1 && !NameChar(s[1]) then Hyphenate(s[1..])
    else "-" + Hyphenate(s[1..])
  }

  function TrimLeftHyphens(s: string): string {
    if s != "" && s[0] == '-' then TrimLeftHyphens(s[1..]) else s
  }

  function TrimRightHyphens(s: string): string {
    if s != "" && s[|s| - 1] == '-' then TrimRightHyphens(s[..|s| - 1]) else s
  }

  function TrimHyphens(s: string): string {
    TrimRightHyphens(TrimLeftHyphens(s))
  }

  /** What is left of a string before it is clamped to 64 characters. */
  function Core(s: string): string {
    TrimHyphens(Hyphenate(ToLower(TrimSpace(s))))
  }

  function Sanitized(s: string): string {
    if |Core(s)| > 64 then TrimRightHyphens(Core(s)[..64]) else Core(s)
  }

  /** `SanitizeName`: no name is ever prefixed, and the last check never fails. */
  method SanitizeName(s: string) returns (name: string)
    ensures name == Sanitized(s)
  {
    CoreShape(s);
    ClampShape(Core(s));
    name := ToLower(TrimSpace(s));
    name := Hyphenate(name);
    name := TrimHyphens(name);
    if name == "" {
      return "";
    }
    name := if NameStart(name[0]) then name else "x" + name;
    if |name| > 64 {
      name := TrimRightHyphens(name[..64]);
    }
    name := if ValidName(name) then name else "";
  }

  // ----- What each step keeps -----

  /** Some character makes it into a name. */
  predicate HasAlnum(s: string) {
    exists c <- s :: NameStart(c)
  }

  /** Some character lowers to one that makes it into a name. */
  predicate HasLetter(s: string) {
    exists c <- s :: NameStart(Lower(c))
  }

  predicate InCharset(s: string) {
    forall c <- s :: NameChar(c)
  }

  lemma {:induction false} HyphenateShape(s: string)
    ensures InCharset(Hyphenate(s))
    ensures HasAlnum(Hyphenate(s)) <==> HasAlnum(s)
    ensures InCharset(s) ==> Hyphenate(s) == s
  {
    if s != "" {
      HyphenateShape(s[1..]);
      assert forall c <- s :: c == s[0] || c in s[1..];
      assert forall c <- s[1..] :: c in s;
      assert s[0] in s && s == [s[0]] + s[1..];
      var rest := Hyphenate(s[1..]);
      if NameChar(s[0]) {
        assert Hyphenate(s) == [s[0]] + rest;
        assert forall c <- rest :: c in [s[0]] + rest;
        assert s[0] in [s[0]] + rest;
      } else {
        assert forall c <- rest :: c in "-" + rest;
      }
    }
  }

  /** A lower-case letter, a digit or a hyphen. */
  predicate Plain(s: string) {
    forall c <- s :: 'a' <= c <= 'z' || '0' <= c <= '9' || c == '-'
  }

  predicate Junk(s: string) {
    s != "" && forall c <- s :: !('a' <= c <= 'z' || '0' <= c <= '9' || c == '-')
  }

  lemma {:induction false} PlainIsKept(plain: string, rest: string)
    requires Plain(plain)
    ensures Hyphenate(plain + rest) == plain + Hyphenate(rest)
    decreases plain
  {
    if plain == "" {
      assert plain + rest == rest;
    } else {
      var tail := plain[1..];
      assert plain[0] in plain && forall c <- tail :: c in plain;
      PlainIsKept(tail, rest);
      assert (plain + rest)[1..] == tail + rest && plain == [plain[0]] + tail;
    }
  }

  lemma {:induction false} JunkIsOneHyphen(junk: string, rest: string)
    requires Junk(junk) && (rest == "" || !Junk(rest[..1]))
    ensures Hyphenate(junk + rest) == "-" + Hyphenate(rest)
    decreases junk
  {
    var tail := junk[1..];
    assert junk[0] in junk && forall c <- tail :: c in junk;
    assert (junk + rest)[1..] == tail + rest && junk == [junk[0]] + tail;
    if tail == "" {
      assert tail + rest == rest;
      assert rest != "" ==> rest[..1] == [rest[0]];
    } else {
      assert tail[0] in junk;
      JunkIsOneHyphen(tail, rest);
    }
  }

  /** Each whole run of other characters becomes one hyphen, and everything else stays. */
  lemma RunBecomesHyphen(plain: string, junk: string, rest: string)
    requires Plain(plain) && Junk(junk) && (rest == "" || !Junk(rest[..1]))
    ensures Hyphenate(plain + junk + rest) == plain + "-" + Hyphenate(rest)
  {
    hide Hyphenate, Plain, Junk;
    PlainIsKept(plain, junk + rest);
    JunkIsOneHyphen(junk, rest);
    assert plain + (junk + rest) == plain + junk + rest;
  }

  /** The result is the longest stretch of the core, from its start, of at most 64 characters and no hyphen last. */
  lemma ClampsAtMost(s: string, n: nat)
    requires |Sanitized(s)| < n <= 64 && n <= |Core(s)|
    ensures Sanitized(s) <= Core(s) && Core(s)[n - 1] == '-'
  {
    hide Core, TrimRightHyphens;
    var core := Core(s);
    if |core| > 64 {
      CutIsHyphens(core[..64], n - 1);
      TrimRightShape(core[..64]);
    }
  }

  lemma {:induction false} CutIsHyphens(s: string, i: nat)
    requires |TrimRightHyphens(s)| <= i < |s|
    ensures s[i] == '-'
    decreases s
  {
    if s[|s| - 1] == '-' && i < |s| - 1 {
      CutIsHyphens(s[..|s| - 1], i);
    }
  }

  lemma {:induction false} TrimLeftShape(s: string)
    ensures var t := TrimLeftHyphens(s);
            && (forall c <- t :: c in s) && (t != "" ==> t[0] != '-') && (HasAlnum(t) <==> HasAlnum(s))
            && (s == "" || s[0] != '-' ==> t == s) && (InCharset(s) ==> InCharset(t))
  {
    if s != "" && s[0] == '-' {
      TrimLeftShape(s[1..]);
      assert forall c <- s :: c == s[0] || c in s[1..];
      assert forall c <- s[1..] :: c in s;
    }
  }

  lemma {:induction false} TrimRightShape(s: string)
    ensures var t := TrimRightHyphens(s);
            && t <= s && (t != "" ==> t[|t| - 1] != '-') && (HasAlnum(t) <==> HasAlnum(s))
            && (s == "" || s[|s| - 1] != '-' ==> t == s) && (InCharset(s) ==> InCharset(t))
  {
    var t := TrimRightHyphens(s);
    if s != "" && s[|s| - 1] == '-' {
      var init := s[..|s| - 1];
      TrimRightShape(init);
      assert forall c <- s :: c == '-' || c in init by { assert s == init + ['-']; }
      assert forall c <- init :: c in s;
    }
    assert forall c <- t :: c in s;
  }

  lemma LowerKeepsCharset(c: char)
    ensures NameChar(c) ==> Lower(c) == c
  {
  }

  lemma {:induction false} ToLowerShape(s: string)
    ensures HasAlnum(ToLower(s)) <==> HasLetter(s)
  {
    hide Lower, NameStart;
    if s != "" {
      ToLowerShape(s[1..]);
      LetterAt(s);
      AlnumAt([Lower(s[0])] + ToLower(s[1..]));
    }
  }

  lemma LetterAt(s: string)
    requires s != ""
    ensures HasLetter(s) <==> NameStart(Lower(s[0])) || HasLetter(s[1..])
  {
    hide Lower, NameStart;
    assert s[0] in s && forall c <- s[1..] :: c in s;
    assert forall c <- s :: c == s[0] || c in s[1..];
  }

  lemma AlnumAt(s: string)
    requires s != ""
    ensures HasAlnum(s) <==> NameStart(s[0]) || HasAlnum(s[1..])
  {
    hide NameStart;
    assert s[0] in s && forall c <- s[1..] :: c in s;
    assert forall c <- s :: c == s[0] || c in s[1..];
  }

  lemma {:induction false} ToLowerKeepsCharset(s: string)
    requires InCharset(s)
    ensures ToLower(s) == s
  {
    hide Lower, NameStart;
    if s != "" {
      assert s[0] in s && forall c <- s[1..] :: c in s;
      LowerKeepsCharset(s[0]);
      ToLowerKeepsCharset(s[1..]);
      assert s == [s[0]] + s[1..];
    }
  }

  lemma SpaceIsNoName(c: char)
    requires IsSpace(c)
    ensures !NameStart(Lower(c)) && !NameChar(c)
  {
  }

  lemma {:induction false} TrimLeftKeepsLetters(s: string)
    ensures HasLetter(TrimLeft(s)) <==> HasLetter(s)
  {
    hide Lower, IsSpace;
    if s != "" && IsSpace(s[0]) {
      SpaceIsNoName(s[0]);
      TrimLeftKeepsLetters(s[1..]);
      assert forall c <- s :: c == s[0] || c in s[1..];
      assert forall c <- s[1..] :: c in s;
    }
  }

  lemma {:induction false} TrimRightKeepsLetters(s: string)
    ensures HasLetter(TrimRight(s)) <==> HasLetter(s)
  {
    hide Lower, IsSpace;
    if s != "" && IsSpace(s[|s| - 1]) {
      var init := s[..|s| - 1];
      SpaceIsNoName(s[|s| - 1]);
      TrimRightKeepsLetters(init);
      assert forall c <- s :: c == s[|s| - 1] || c in init by { assert s == init + [s[|s| - 1]]; }
      assert forall c <- init :: c in s;
    }
  }

  /** Before the clamp: a letter or digit at each end, and nothing else than the charset between. */
  lemma CoreShape(s: string)
    ensures var t := Core(s);
            && InCharset(t) && (t == "" <==> !HasLetter(s)) && (t != "" ==> NameStart(t[0]) && NameStart(t[|t| - 1]))
  {
    hide NameStart, Lower, TrimSpace, Hyphenate, ToLower, TrimLeftHyphens, TrimRightHyphens;
    var a := TrimSpace(s);
    var b := ToLower(a);
    var d := Hyphenate(b);
    var e := TrimLeftHyphens(d);
    var t := TrimRightHyphens(e);
    assert HasLetter(a) <==> HasLetter(s) by { TrimKeepsLetters(s); }
    ToLowerShape(a);
    HyphenateShape(b);
    TrimLeftShape(d);
    TrimRightShape(e);
    if t != "" {
      assert t[0] == e[0] && t[0] in t && t[|t| - 1] in t;
    }
  }

  lemma TrimKeepsLetters(s: string)
    ensures HasLetter(TrimSpace(s)) <==> HasLetter(s)
  {
    hide HasLetter;
    TrimLeftKeepsLetters(s);
    TrimRightKeepsLetters(TrimLeft(s));
  }

  lemma ClampShape(t: string)
    requires InCharset(t) && (t != "" ==> NameStart(t[0]) && NameStart(t[|t| - 1]))
    ensures var r := if |t| > 64 then TrimRightHyphens(t[..64]) else t;
            && r <= t && (r == "" <==> t == "") && (r != "" ==> ValidName(r) && r[|r| - 1] != '-')
  {
    hide TrimRightHyphens;
    if |t| > 64 {
      var cut := t[..64];
      assert forall c <- cut :: c in t;
      TrimRightShape(cut);
      assert cut[0] in cut;
      var r := TrimRightHyphens(cut);
      assert forall i | 0 <= i < |r| :: r[i] in r;
    } else {
      assert forall i | 0 <= i < |t| :: t[i] in t;
    }
  }

  // ----- What the result is -----

  /** Any string becomes a valid name that does not end in a hyphen, or nothing. */
  lemma SanitizedIsValid(s: string)
    ensures Sanitized(s) == "" || (ValidName(Sanitized(s)) && Sanitized(s)[|Sanitized(s)| - 1] != '-')
  {
    hide Core;
    CoreShape(s);
    ClampShape(Core(s));
  }

  /** Nothing is left exactly when no character is, or lowers to, a letter or digit of the charset. */
  lemma SanitizedIsEmptyExactly(s: string)
    ensures Sanitized(s) == "" <==> forall c <- s :: !NameStart(Lower(c))
  {
    hide Core;
    CoreShape(s);
    ClampShape(Core(s));
  }

  /** A valid name is kept exactly when it does not end in a hyphen. */
  lemma ValidNameIsKeptExactly(name: string)
    requires ValidName(name)
    ensures Sanitized(name) == name <==> name[|name| - 1] != '-'
  {
    hide Hyphenate, ToLower, TrimLeftHyphens, TrimRightHyphens, Lower, TrimSpace, Core;
    SanitizedIsValid(name);
    if name[|name| - 1] != '-' {
      forall c | c in name
        ensures NameChar(c) && !IsSpace(c)
      {
        NameCharIsNoSpace(c);
      }
      NothingToTrim(name);
      ToLowerKeepsCharset(name);
      HyphenateShape(name);
      TrimLeftShape(name);
      TrimRightShape(name);
      CoreOf(name, name, name, name);
    }
  }

  lemma CoreOf(s: string, lower: string, joined: string, left: string)
    requires lower == ToLower(TrimSpace(s)) && joined == Hyphenate(lower) && left == TrimLeftHyphens(joined)
    ensures Core(s) == TrimRightHyphens(left)
  {
  }

  lemma NameCharIsNoSpace(c: char)
    ensures NameChar(c) ==> !IsSpace(c)
  {
  }

  /** Sanitizing twice is sanitizing once, for every string. */
  lemma SanitizeSettles(s: string)
    ensures Sanitized(Sanitized(s)) == Sanitized(s)
  {
    hide Sanitized;
    SanitizedIsValid(s);
    if Sanitized(s) == "" {
      SanitizedIsEmptyExactly("");
    } else {
      ValidNameIsKeptExactly(Sanitized(s));
    }
  }
}
