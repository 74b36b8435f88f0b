/** The account-id normalisers: the parser and printer of addresses, the reader's and the
    sender's bare forms, and the canonical form policies compare. */
module Address {
  import opened Wrappers
  import opened Text
  import opened Numerals

  predicate IsHexDigit(c: char) {
    '0' <= c <= '9' || 'a' <= c <= 'f' || 'A' <= c <= 'F'
  }

  predicate AllHex(s: string) {
    forall i :: 0 <= i < |s| ==> IsHexDigit(s[i])
  }

  predicate IsHex64(s: string) {
    |s| == 64 && AllHex(s)
  }

  /** A stored account id: 64 lower-case hex digits. */
  predicate IsBare(s: string) {
    IsHex64(s) && Lower(s) == s
  }

  predicate HasColon(s: string) {
    exists i :: 0 <= i < |s| && s[i] == ':'
  }

  /** `rsplit(':').next()`: what follows the last colon, or everything. */
  function AfterLastColon(s: string): string {
    if s == "" || s[|s| - 1] == ':' then ""
    else AfterLastColon(s[..|s| - 1]) + [s[|s| - 1]]
  }

  /** `split_once(':')`: the two sides of the first colon. */
  function SplitOnce(s: string): Option<(string, string)> {
    if s == "" then None
    else if s[0] == ':' then Some(("", s[1..]))
    else match SplitOnce(s[1..])
         case None => None
         case Some(p) => Some(([s[0]] + p.0, p.1))
  }

  function BareAccountId(addr: string): Option<string> {
    var hex := Lower(Trim(AfterLastColon(addr)));
    if IsHex64(hex) then Some(hex) else None
  }

  function CanonDest(s: string): string {
    var tail := Lower(Trim(AfterLastColon(s)));
    if IsHex64(tail) then tail else Lower(Trim(s))
  }

  function NormalizeHex(s: string): Option<string> {
    var h := Lower(Trim(s));
    if IsHex64(h) then Some(h) else None
  }

  /** What is left of a trimmed address once its prefix is off; `None` for a workchain
      other than 0. */
  function Body(t: string): Option<string> {
    match SplitOnce(t)
    case Some(p) => if p.0 == "0" then Some(p.1) else None
    case None => match StripPrefix(t, "0x") case Some(rest) => Some(rest) case None => Some(t)
  }

  function Parse(s: string): Option<string> {
    match Body(Trim(s)) case None => None case Some(body) => NormalizeHex(body)
  }

  function Display(bare: string): string {
    "0:" + bare
  }

  function BareHex(s: string): string {
    Lower(StripAll(StripAll(Trim(s), "0:"), "0x"))
  }

  // ---- colons and hex digits ------------------------------------------------

  lemma {:induction false} AfterLastColonNone(s: string)
    requires !HasColon(s)
    ensures AfterLastColon(s) == s
  {
    if s != "" {
      AfterLastColonNone(s[..|s| - 1]);
    }
  }

  lemma {:induction false} AfterLastColonAt(a: string, b: string)
    requires !HasColon(b)
    ensures AfterLastColon(a + ":" + b) == b
  {
    var s := a + ":" + b;
    if b != "" {
      assert s[..|s| - 1] == a + ":" + b[..|b| - 1];
      AfterLastColonAt(a, b[..|b| - 1]);
    }
  }

  lemma {:induction false} AfterLastColonAppended(s: string, post: string)
    requires !HasColon(post) && HasColon(s)
    ensures AfterLastColon(s + post) == AfterLastColon(s) + post
  {
    if post == "" {
      assert s + post == s && AfterLastColon(s) + post == AfterLastColon(s);
    } else {
      assert (s + post)[..|s + post| - 1] == s + post[..|post| - 1];
      AfterLastColonAppended(s, post[..|post| - 1]);
    }
  }

  lemma {:induction false} AfterLastColonPrefixed(pre: string, s: string)
    requires HasColon(s)
    ensures AfterLastColon(pre + s) == AfterLastColon(s)
  {
    assert (pre + s)[|pre + s| - 1] == s[|s| - 1];
    if s[|s| - 1] != ':' {
      assert (pre + s)[..|pre + s| - 1] == pre + s[..|s| - 1];
      AfterLastColonPrefixed(pre, s[..|s| - 1]);
    }
  }

  lemma {:induction false} AfterLastColonLower(s: string)
    ensures AfterLastColon(Lower(s)) == Lower(AfterLastColon(s))
  {
    if s != "" && s[|s| - 1] != ':' {
      LowerOfSlices(s, 0, |s| - 1);
      assert s[0..|s| - 1] == s[..|s| - 1] && Lower(s)[0..|s| - 1] == Lower(s)[..|s| - 1];
      AfterLastColonLower(s[..|s| - 1]);
    }
  }

  /** Trimming first or last gives the same tail. */
  lemma TailOfTrimmed(s: string)
    ensures Trim(AfterLastColon(Trim(s))) == Trim(AfterLastColon(s))
  {
    hide Trim, AfterLastColon;
    var pre, post := TrimSplits(s);
    var m := Trim(s);
    assert s == pre + (m + post);
    if HasColon(m) {
      var i :| 0 <= i < |m| && m[i] == ':';
      assert (m + post)[i] == ':';
      AfterLastColonAppended(m, post);
      AfterLastColonPrefixed(pre, m + post);
      assert "" + AfterLastColon(m) + post == AfterLastColon(m) + post;
      TrimPadded("", AfterLastColon(m), post);
    } else {
      AfterLastColonNone(s);
      AfterLastColonNone(m);
      TrimPadded(pre, m, post);
    }
  }

  lemma HexLower(s: string)
    ensures AllHex(Lower(s)) <==> AllHex(s)
  {
    if AllHex(Lower(s)) {
      forall i | 0 <= i < |s|
        ensures IsHexDigit(s[i])
      {
        assert IsHexDigit(Lower(s)[i]);
      }
    }
  }

  lemma {:induction false} SplitOnceAt(s: string)
    ensures match SplitOnce(s)
            case None => !HasColon(s)
            case Some(p) => s == p.0 + ":" + p.1 && !HasColon(p.0) && HasColon(s)
  {
    if s != "" && s[0] != ':' {
      if HasColon(s) {
        var i :| 0 <= i < |s| && s[i] == ':';
        assert s[1..][i - 1] == ':';
      }
      SplitOnceAt(s[1..]);
      assert s == [s[0]] + s[1..];
      if SplitOnce(s).Some? {
        assert s[|SplitOnce(s).value.0|] == ':';
      }
    }
  }

  // ---- canonical forms ------------------------------------------------------

  /** The canonical form is its own canonical form. */
  lemma CanonIdempotent(s: string)
    ensures CanonDest(CanonDest(s)) == CanonDest(s)
  {
    var tail := Lower(Trim(AfterLastColon(s)));
    if IsHex64(tail) {
      BareIsFixed(tail, Trim(AfterLastColon(s)));
    } else {
      var r := Lower(Trim(s));
      AfterLastColonLower(Trim(s));
      TrimLower(AfterLastColon(Trim(s)));
      TailOfTrimmed(s);
      LowerTwice(Trim(AfterLastColon(s)));
      TrimLower(Trim(s));
      TrimOfTrimmed(Trim(s));
      LowerTwice(Trim(s));
    }
  }

  lemma BareIsFixed(bare: string, from: string)
    requires bare == Lower(from) && IsHex64(bare)
    ensures IsBare(bare) && CanonDest(bare) == bare && BareAccountId(bare) == Some(bare)
    ensures !HasColon(bare) && Trim(bare) == bare
  {
    LowerTwice(from);
    AfterLastColonNone(bare);
    TrimOfTrimmed(bare);
  }

  /** Where an account id can be read off, it is the canonical form. */
  lemma CanonIsBareId(s: string)
    requires BareAccountId(s).Some?
    ensures CanonDest(s) == BareAccountId(s).value
    ensures CanonDest(BareAccountId(s).value) == CanonDest(s)
  {
    BareIsFixed(BareAccountId(s).value, Trim(AfterLastColon(s)));
  }

  /** Printing and parsing are inverse, and what is parsed is always in stored form. */
  lemma ParseDisplayRoundTrip(s: string)
    requires Parse(s).Some?
    ensures IsBare(Parse(s).value)
    ensures Parse(Display(Parse(s).value)) == Parse(s)
    ensures Parse(Parse(s).value) == Parse(s)
  {
    var bare := Parse(s).value;
    BareIsFixed(bare, Trim(Body(Trim(s)).value));
    ParseOfBare(bare);
  }

  lemma ParseOfBare(bare: string)
    requires IsBare(bare)
    ensures Parse(bare) == Some(bare) && Parse(Display(bare)) == Some(bare)
  {
    BareIsFixed(bare, bare);
    assert Body(bare) == Some(bare) by {
      SplitOnceAt(bare);
      assert bare[1] != 'x';
      SecondChar(bare, "0x");
    }
    var d := Display(bare);
    TrimOfTrimmed(d);
    assert Body(d) == Some(bare) by {
      assert d[1..][1..] == bare;
      assert SplitOnce(d[1..]) == Some(("", bare));
      assert [d[0]] + "" == "0";
    }
  }

  /** The address was written with a `0x` prefix. */
  predicate HexPrefixed(s: string) {
    SplitOnce(Trim(s)).None? && "0x" <= Trim(s)
  }

  /** White space follows the prefix. */
  predicate SpaceBehindPrefix(s: string) {
    match Body(Trim(s)) case None => false case Some(body) => body != "" && IsSpace(body[0])
  }

  /** A body made of spaces and hex digits has no colon and no `x`. */
  lemma BodyChars(body: string)
    requires NormalizeHex(body).Some?
    ensures !HasColon(body) && forall i :: 0 <= i < |body| ==> body[i] != 'x'
    ensures |Trim(body)| == 64 && AllHex(Trim(body))
  {
    var pre, post := TrimSplits(body);
    HexLower(Trim(body));
    forall i | 0 <= i < |body|
      ensures body[i] != ':' && body[i] != 'x'
    {
      if i < |pre| {
        assert body[i] == pre[i];
      } else if i < |pre| + 64 {
        assert body[i] == Trim(body)[i - |pre|];
      } else {
        assert body[i] == post[i - |pre| - 64];
      }
    }
  }

  /** The three forms an accepted address can have. */
  lemma AcceptedForms(s: string) returns (body: string)
    requires Parse(s).Some?
    ensures Body(Trim(s)) == Some(body) && NormalizeHex(body) == Parse(s)
    ensures Trim(s) == (if HexPrefixed(s) then "0x" else if SplitOnce(Trim(s)).Some? then "0:" else "") + body
    ensures !HasColon(body)
    ensures forall i :: 0 <= i < |body| ==> body[i] != 'x'
  {
    var t := Trim(s);
    SplitOnceAt(t);
    body := Body(t).value;
    BodyChars(body);
  }

  /** With a `0x` prefix the canonical form keeps it, and is longer than an account id. */
  lemma PrefixedCanon(s: string)
    requires Parse(s).Some? && HexPrefixed(s)
    ensures CanonDest(s) == Lower(Trim(s)) && |CanonDest(s)| >= 66
  {
    var body := AcceptedForms(s);
    var t := Trim(s);
    hide Trim, Lower, Body, NormalizeHex;
    TailOfTrimmed(s);
    SplitOnceAt(t);
    hide AfterLastColon, SplitOnce;
    AfterLastColonNone(t);
    TrimOfTrimmed(t);
    BodyLength(body);
    assert Lower(t)[1] == 'x';
  }

  lemma BodyLength(body: string)
    requires NormalizeHex(body).Some?
    ensures |body| >= 64
  {
    BodyChars(body);
    var pre, post := TrimSplits(body);
  }

  /** On an accepted address the reader's account id and the canonical form are the parsed
      id exactly when the address has no `0x` prefix. */
  lemma ReaderAgreesIff(s: string)
    requires Parse(s).Some?
    ensures BareAccountId(s) == Parse(s) <==> !HexPrefixed(s)
    ensures CanonDest(s) == Parse(s).value <==> !HexPrefixed(s)
  {
    var body := AcceptedForms(s);
    var t := Trim(s);
    TailOfTrimmed(s);
    if HexPrefixed(s) {
      PrefixedCanon(s);
      ParseDisplayRoundTrip(s);
      if BareAccountId(s).Some? {
        CanonIsBareId(s);
      }
    } else {
      if SplitOnce(t).Some? {
        assert t == "0" + ":" + body;
        AfterLastColonAt("0", body);
      } else {
        assert t == body;
        AfterLastColonNone(body);
      }
      CanonIsBareId(s);
    }
  }

  lemma NoPrefix(s: string, prefix: string)
    requires |prefix| == 2 && !(2 <= |s| && s[1] == prefix[1])
    ensures StripAll(s, prefix) == s
  {
    SecondChar(s, prefix);
  }

  lemma StrippedBody(s: string, body: string)
    requires Parse(s).Some? && Body(Trim(s)) == Some(body)
    ensures StripAll(StripAll(Trim(s), "0:"), "0x") == body
  {
    var b := AcceptedForms(s);
    var t := Trim(s);
    if SplitOnce(t).Some? {
      assert t[2..] == body;
      NoPrefix(body, "0:");
    } else {
      SplitOnceAt(t);
      NoPrefix(t, "0:");
      if HexPrefixed(s) {
        assert t[2..] == body;
      }
    }
    NoPrefix(body, "0x");
  }

  /** On an accepted address the sender's bare form is the parsed id exactly when no white
      space follows the prefix: it trims the ends of the text only. */
  lemma SenderAgreesIff(s: string)
    requires Parse(s).Some?
    ensures BareHex(s) == Parse(s).value <==> !SpaceBehindPrefix(s)
  {
    var body := AcceptedForms(s);
    StrippedBody(s, body);
    BodyChars(body);
    if SpaceBehindPrefix(s) {
      assert Lower(body)[0] == LowerChar(body[0]);
      assert !IsHexDigit(Lower(body)[0]);
      assert Parse(s).value[0] == Lower(Trim(body))[0];
    } else {
      assert Trimmed(body) by {
        assert body[|body| - 1] == Trim(s)[|Trim(s)| - 1];
      }
      TrimOfTrimmed(body);
    }
  }

  // ---- which texts are accepted ---------------------------------------------

  /** A way to write an account id: 64 hex digits of either case, behind `0:` or `0x` or
      neither, with white space around the whole and behind the prefix. */
  ghost predicate Spells(s: string, bare: string) {
    exists pre, prefix, mid, hex, post ::
      AllSpace(pre) && AllSpace(mid) && AllSpace(post) && s == pre + (prefix + (mid + hex)) + post
      && IsSpelling(prefix, hex, bare)
  }

  ghost predicate IsSpelling(prefix: string, hex: string, bare: string) {
    prefix in ["", "0:", "0x"] && IsHex64(hex) && Lower(hex) == bare
  }

  /** The parser accepts exactly the ways to write an account id, and yields that id. */
  lemma ParseIff(s: string, bare: string)
    ensures Parse(s) == Some(bare) <==> Spells(s, bare)
  {
    hide Parse, Trim, Lower, IsSpelling;
    if Parse(s) == Some(bare) {
      ParsedIsSpelled(s);
    }
    forall pre, prefix, mid, hex, post |
      AllSpace(pre) && AllSpace(mid) && AllSpace(post) && s == pre + (prefix + (mid + hex)) + post
      && IsSpelling(prefix, hex, bare)
      ensures Parse(s) == Some(bare)
    {
      TrimPadded(pre, prefix + (mid + hex), post);
      SpelledParses(prefix, mid, hex, bare);
      TrimInParse(s, prefix + (mid + hex));
    }
  }

  /** Only the trimmed text matters. */
  lemma TrimInParse(s: string, t: string)
    requires Trim(s) == Trim(t)
    ensures Parse(s) == Parse(t)
  {
  }

  lemma ParsedIsSpelled(s: string)
    requires Parse(s).Some?
    ensures Spells(s, Parse(s).value)
  {
    hide Parse, Trim, Lower, IsSpelling, AllSpace;
    var pre, post := TrimSplits(s);
    var prefix, body := FormOf(s);
    var mid, behind := TrimSplits(body);
    var hex := Trim(body);
    SpaceConcat(behind, post);
    Reassociate(pre, prefix, mid, hex, behind, post);
    SpellsIntro(s, pre, prefix, mid, hex, behind + post, Parse(s).value);
  }

  lemma FormOf(s: string) returns (prefix: string, body: string)
    requires Parse(s).Some?
    ensures Trim(s) == prefix + body && IsSpelling(prefix, Trim(body), Parse(s).value)
  {
    body := AcceptedForms(s);
    prefix := if HexPrefixed(s) then "0x" else if SplitOnce(Trim(s)).Some? then "0:" else "";
    HexLower(Trim(body));
  }

  lemma SpaceConcat(a: string, b: string)
    requires AllSpace(a) && AllSpace(b)
    ensures AllSpace(a + b)
  {
  }

  lemma Reassociate(pre: string, prefix: string, mid: string, hex: string, behind: string, post: string)
    ensures pre + (prefix + (mid + hex + behind)) + post == pre + (prefix + (mid + hex)) + (behind + post)
  {
  }

  lemma SpellsIntro(s: string, pre: string, prefix: string, mid: string, hex: string, post: string, bare: string)
    requires AllSpace(pre) && AllSpace(mid) && AllSpace(post) && s == pre + (prefix + (mid + hex)) + post
    requires IsSpelling(prefix, hex, bare)
    ensures Spells(s, bare)
  {
    hide IsSpelling, AllSpace;
  }

  lemma SpelledParses(prefix: string, mid: string, hex: string, bare: string)
    requires AllSpace(mid) && IsSpelling(prefix, hex, bare)
    ensures Parse(prefix + (mid + hex)) == Some(bare)
  {
    var body := mid + hex;
    var s := prefix + body;
    hide Trim, Lower, SplitOnce;
    TrimOfTrimmed(hex);
    TrimPadded(mid, hex, "");
    assert body + "" == body && Trim(body) == hex;
    HexLower(hex);
    assert NormalizeHex(body) == Some(bare);
    BodyChars(body);
    if prefix == "" {
      assert s == body && NormalizeHex(hex) == Some(bare);
      SplitOnceAt(hex);
      SecondChar(hex, "0x");
      assert Body(hex) == Some(hex);
    } else {
      TrimOfTrimmed(s);
      assert s[2..] == body;
      SplitOnceAt(s);
      assert s[1] == prefix[1];
    }
  }

  lemma {:induction false} LowerOfHex(n: nat)
    ensures Lower(ShowHex(n, true)) == ShowHex(n, false) && AllHex(ShowHex(n, true))
  {
    hide HexChar;
    LowerOfHexChar(n % 16);
    var last := [HexChar(n % 16, true)];
    if n >= 16 {
      var front := ShowHex(n / 16, true);
      LowerOfHex(n / 16);
      assert (front + last)[..|front + last| - 1] == front;
    } else {
      assert last[..0] == "" && n % 16 == n;
    }
  }

  lemma LowerOfHexChar(d: nat)
    requires d < 16
    ensures LowerChar(HexChar(d, true)) == HexChar(d, false) && IsHexDigit(HexChar(d, true))
  {
  }

  /** An account id written in upper-case hex is the one written in lower case. */
  lemma EitherCaseParses(zeros: string, n: nat)
    requires forall i :: 0 <= i < |zeros| ==> zeros[i] == '0'
    requires |zeros + ShowHex(n, false)| == 64
    ensures forall upper :: Parse(zeros + ShowHex(n, upper)) == Some(zeros + ShowHex(n, false))
  {
    var bare, hex := zeros + ShowHex(n, false), zeros + ShowHex(n, true);
    LowerOfHex(n);
    assert Lower(hex) == bare;
    HexLower(hex);
    SpelledParses("", "", hex, bare);
    assert "" + ("" + hex) == hex;
    LowerTwice(hex);
    ParseOfBare(bare);
  }

  /** Two accepted addresses have the same canonical form only if they are the same account
      and either both or neither have a `0x` prefix; without prefixes that is enough. */
  lemma SameCanonIff(s: string, t: string)
    requires Parse(s).Some? && Parse(t).Some?
    ensures CanonDest(s) == CanonDest(t) ==> Parse(s) == Parse(t) && HexPrefixed(s) == HexPrefixed(t)
    ensures !HexPrefixed(s) && !HexPrefixed(t) && Parse(s) == Parse(t) ==> CanonDest(s) == CanonDest(t)
  {
    hide BareAccountId, CanonDest, Parse, HexPrefixed;
    ReaderAgreesIff(s);
    ReaderAgreesIff(t);
    if HexPrefixed(s) {
      PrefixedCanon(s);
    }
    if HexPrefixed(t) {
      PrefixedCanon(t);
    }
    if HexPrefixed(s) != HexPrefixed(t) {
      ParseDisplayRoundTrip(s);
      ParseDisplayRoundTrip(t);
    } else if HexPrefixed(s) && CanonDest(s) == CanonDest(t) {
      ParsedBehindPrefix(s);
      ParsedBehindPrefix(t);
    }
  }

  /** A `0x` address parses to what follows the prefix in its canonical form. */
  lemma ParsedBehindPrefix(s: string)
    requires Parse(s).Some? && HexPrefixed(s)
    ensures |Lower(Trim(s))| >= 2 && Parse(s) == Some(Trim(Lower(Trim(s))[2..]))
  {
    var body := AcceptedForms(s);
    var t := Trim(s);
    hide Trim, AfterLastColon, SplitOnce;
    assert t[2..] == body;
    LowerOfSlices(t, 2, |t|);
    assert t[2..|t|] == body && Lower(t)[2..|t|] == Lower(t)[2..];
    TrimLower(body);
  }

  // ---- both exceptions are real ---------------------------------------------

  /** Every account id written behind `0: ` is accepted, and the sender misses it. */
  lemma SpacedIsMissed(bare: string)
    requires IsBare(bare)
    ensures var s := "0: " + bare;
            && Parse(s) == Some(bare) && SpaceBehindPrefix(s) && BareHex(s) != bare
            && BareAccountId(s) == Some(bare) && CanonDest(s) == bare
  {
    var s := "0: " + bare;
    hide AfterLastColon, SplitOnce, Trim, Lower, BareHex, CanonDest, BareAccountId, Body, Parse;
    BareIsFixed(bare, bare);
    SpelledParses("0:", " ", bare, bare);
    assert "0:" + (" " + bare) == s;
    SpaceBehindColon(s, bare);
    SenderAgreesIff(s);
    ReaderAgreesIff(s);
  }

  lemma SpaceBehindColon(s: string, bare: string)
    requires IsHex64(bare) && s == "0: " + bare
    ensures SpaceBehindPrefix(s) && !HexPrefixed(s)
  {
    hide Trim, SplitOnce;
    assert s[|s| - 1] == bare[63] && IsHexDigit(bare[63]);
    TrimOfTrimmed(s);
    SplitOnceAt(s);
    assert s[1] == ':';
    var p := SplitOnce(s).value;
    assert |p.0| == 1 && p.0[0] == s[0] && p.1[0] == s[2];
  }

  lemma NoSpaceBehind(s: string, bare: string)
    requires IsBare(bare) && s == "0x" + bare
    ensures HexPrefixed(s) && !SpaceBehindPrefix(s)
  {
    hide SplitOnce, Trim, Lower;
    BareIsFixed(bare, bare);
    NoColonBehind(s, bare);
    assert "0x" <= s && s[2..] == bare;
    assert Body(s) == Some(bare);
    assert IsHexDigit(bare[0]);
  }

  lemma NoColonBehind(s: string, bare: string)
    requires IsHex64(bare) && s == "0x" + bare
    ensures Trim(s) == s && SplitOnce(s).None?
  {
    assert s[|s| - 1] == bare[63] && IsHexDigit(bare[63]);
    TrimOfTrimmed(s);
    SplitOnceAt(s);
    forall i | 0 <= i < |s|
      ensures s[i] != ':'
    {
      if i >= 2 {
        assert s[i] == bare[i - 2] && IsHexDigit(bare[i - 2]);
      }
    }
  }

  /** Every account id written with `0x` is accepted, and neither the reader nor a policy
      takes it for the account. */
  lemma HexPrefixedIsMissed(bare: string)
    requires IsBare(bare)
    ensures var s := "0x" + bare;
            && Parse(s) == Some(bare) && HexPrefixed(s)
            && CanonDest(s) != bare && BareAccountId(s) != Some(bare) && BareHex(s) == bare
  {
    var s := "0x" + bare;
    hide AfterLastColon, SplitOnce, Trim, Lower, BareHex, CanonDest, BareAccountId, Body, Parse;
    BareIsFixed(bare, bare);
    SpelledParses("0x", "", bare, bare);
    assert "0x" + ("" + bare) == s;
    NoSpaceBehind(s, bare);
    SenderAgreesIff(s);
    ReaderAgreesIff(s);
  }
}
