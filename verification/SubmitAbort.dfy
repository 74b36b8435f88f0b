/** Printing a rejected reply into an error text, and reading the exit code back from it. */
module SubmitAbort {
  import opened Wrappers
  import opened Json
  import opened Text
  import opened Numerals
  import opened ExitCode

  const TOKEN: string := "exit_code="
  const REJECTED: string := "block manager rejected message "
  const NONZERO: string := "block manager result reports " + "a nonzero compute "
  const ABORTED: string := "block manager result reports " + "an aborted transaction ("

  // ---- check_bm_error -------------------------------------------------------

  function OrElse(s: Option<string>, default: string): string {
    if s.Some? then s.value else default
  }

  /** The text for a top-level error object. */
  function RejectedText(code: string, exit: Option<int>, message: string, shown: string): string {
    REJECTED + "[" + code + "]:" + (if exit.Some? then " " + TOKEN + Show(exit.value) else "")
    + " " + message + "; error=" + shown
  }

  function ShowOptBool(b: Option<bool>): string {
    match b case None => "None" case Some(v) => if v then "Some(true)" else "Some(false)"
  }

  function ShowOptInt(n: Option<int>): string {
    match n case None => "None" case Some(v) => "Some(" + Show(v) + ")"
  }

  function NonzeroText(code: int, aborted: Option<bool>, shown: string): string {
    NONZERO + TOKEN + Show(code) + " (aborted=" + ShowOptBool(aborted) + "): " + shown
  }

  function AbortedText(exit: Option<int>, shown: string): string {
    ABORTED + TOKEN + ShowOptInt(exit) + "): " + shown
  }

  function ResultExit(resp: Value): Option<int> {
    match Pointer(resp, ["result", "exit_code"]) case None => None case Some(v) => v.AsI64()
  }

  function ResultAborted(resp: Value): Option<bool> {
    match Pointer(resp, ["result", "aborted"]) case None => None case Some(v) => v.AsBool()
  }

  /** `show` prints a JSON value. */
  function CheckBmError(resp: Value, show: Value -> string): Result<(), string> {
    var err := resp.Get("error");
    if err.Some? && err.value != Null then
      Err(RejectedText(OrElse(StrField(err, "code"), "UNKNOWN"), ExtractExitCode(err.value),
                       OrElse(StrField(err, "message"), "(no message)"), show(err.value)))
    else
      var exit, aborted := ResultExit(resp), ResultAborted(resp);
      if exit.Some? && exit.value != 0 then Err(NonzeroText(exit.value, aborted, show(resp)))
      else if aborted == Some(true) then Err(AbortedText(exit, show(resp)))
      else Ok(())
  }

  /** The reply carries an error. */
  predicate HasError(resp: Value) {
    resp.Get("error").Some? && resp.Get("error") != Some(Null)
  }

  /** The reply's result has this entry. */
  predicate ResultHas(resp: Value, name: string, v: Value) {
    resp.Get("result").Some? && resp.Get("result").value.Get(name) == Some(v)
  }

  predicate NonzeroResult(resp: Value) {
    exists n: Int64 :: n != 0 && ResultHas(resp, "exit_code", Int(n))
  }

  predicate Refused(resp: Value) {
    HasError(resp) || NonzeroResult(resp) || ResultHas(resp, "aborted", Bool(true))
  }

  lemma ResultParts(resp: Value, name: string)
    ensures Pointer(resp, ["result", name])
            == match resp.Get("result") case None => None case Some(result) => result.Get(name)
  {
    assert ["result", name][1..] == [name] && [name][1..] == [];
    if resp.Get("result").Some? {
      var result := resp.Get("result").value;
      assert Pointer(result, [name]) == result.Get(name);
    }
  }

  /** A reply is rejected exactly when it carries an error that is not `null`, or its result
      has a 64-bit exit code other than 0, or its result is aborted. */
  lemma RejectedIff(resp: Value, show: Value -> string)
    ensures CheckBmError(resp, show).Err? <==> Refused(resp)
  {
    ResultParts(resp, "exit_code");
    ResultParts(resp, "aborted");
    hide Pointer, RejectedText, NonzeroText, AbortedText, ExtractExitCode;
    var exit := ResultExit(resp);
    if exit.Some? {
      var n: Int64 := exit.value;
      assert ResultHas(resp, "exit_code", Int(n));
    }
  }

  /** The reply `{result: {exit_code, aborted}}` of an executed message. */
  function Executed(exit: Option<Int64>, aborted: Option<bool>): Value {
    Obj([Field("result", Obj([Field("exit_code", OfInt(exit)), Field("aborted", OfBool(aborted))]))])
  }

  /** An acknowledgement says nothing about an execution: it passes, and so does an executed
      message with code 0 that is not aborted. */
  lemma AcknowledgementPasses(show: Value -> string, ack: seq<Field>, exit: Option<Int64>, aborted: Option<bool>)
    requires Find(ack, "exit_code").None? && Find(ack, "aborted").None?
    ensures CheckBmError(Obj([Field("result", Obj(ack))]), show) == Ok(())
    ensures CheckBmError(Executed(exit, aborted), show).Ok? <==> exit in {None, Some(0)} && aborted != Some(true)
  {
    var resp := Obj([Field("result", Obj(ack))]);
    RejectedIff(resp, show);
    FindAbsent(resp.fields, "error");
    RejectedIff(Executed(exit, aborted), show);
    ExecutedParts(exit, aborted);
    hide CheckBmError;
    if exit.Some? && exit.value != 0 {
      assert ResultHas(Executed(exit, aborted), "exit_code", Int(exit.value));
    }
  }

  lemma ExecutedParts(exit: Option<Int64>, aborted: Option<bool>)
    ensures var resp := Executed(exit, aborted);
            && !HasError(resp) && resp.Get("result").Some?
            && resp.Get("result").value.Get("exit_code") == Some(OfInt(exit))
            && resp.Get("result").value.Get("aborted") == Some(OfBool(aborted))
  {
    var resp := Executed(exit, aborted);
    FindAbsent(resp.fields, "error");
    FindAt(resp.Get("result").value.fields, 0);
    FindAt(resp.Get("result").value.fields, 1);
  }

  // ---- parsed_exit_code -----------------------------------------------------

  /** Where the needle first occurs at or behind `from`. */
  function FindFrom(s: string, needle: string, from: nat): (r: Option<nat>)
    ensures r.Some? ==> from <= r.value && OccursAt(s, needle, r.value)
    ensures r.Some? ==> forall at :: from <= at < r.value ==> !OccursAt(s, needle, at)
    ensures r.None? ==> forall at: nat :: from <= at <= |s| ==> !OccursAt(s, needle, at)
    decreases |s| - from
  {
    if from > |s| then None
    else if OccursAt(s, needle, from) then Some(from)
    else FindFrom(s, needle, from + 1)
  }

  /** `split(TOKEN).nth(1)`: what follows the first token, up to the next one. */
  function Segment(s: string): Option<string> {
    match FindFrom(s, TOKEN, 0)
    case None => None
    case Some(at) =>
      var tail := s[at + |TOKEN|..];
      match FindFrom(tail, TOKEN, 0)
      case None => Some(tail)
      case Some(next) => Some(tail[..next])
  }

  function LeadingDigits(s: string): (r: string)
    ensures AllDigits(r, 10)
  {
    if s != "" && '0' <= s[0] <= '9' then
      var rest := LeadingDigits(s[1..]);
      assert DigitVal(s[0], 10).Some?;
      [s[0]] + rest
    else ""
  }

  function ReadCode(tail: string): Option<int> {
    ParseI64(LeadingDigits(TrimStart(tail)))
  }

  function ParsedExitCode(s: string): Option<int> {
    match Segment(s) case None => None case Some(tail) => ReadCode(tail)
  }

  datatype Abort = InvalidHistoryProof | InvalidZkProof | Other

  function ExplainSubmitAbort(text: string): Abort {
    match ParsedExitCode(text)
    case Some(n) => if n == 403 then InvalidHistoryProof else if n == 137 then InvalidZkProof else Other
    case None => Other
  }

  // ---- reading stops at the first other character ---------------------------

  predicate Stops(c: char) {
    !IsSpace(c) && !('0' <= c <= '9')
  }

  lemma {:induction false} LeadingDigitsStop(u: string, c: char, rest: string)
    requires Stops(c)
    ensures LeadingDigits(u + [c] + rest) == LeadingDigits(u)
  {
    if u != "" && '0' <= u[0] <= '9' {
      assert (u + [c] + rest)[1..] == u[1..] + [c] + rest;
      LeadingDigitsStop(u[1..], c, rest);
    }
  }

  lemma {:induction false} ReadCodeStops(u: string, c: char, rest: string)
    requires Stops(c)
    ensures ReadCode(u + [c] + rest) == ReadCode(u)
  {
    if u != "" && IsSpace(u[0]) {
      assert (u + [c] + rest)[1..] == u[1..] + [c] + rest;
      ReadCodeStops(u[1..], c, rest);
    } else {
      assert TrimStart(u + [c] + rest) == u + [c] + rest;
      LeadingDigitsStop(u, c, rest);
    }
  }

  /** The text starts, behind white space, with the digits of the number, all of them. */
  ghost predicate StartsWithNumber(tail: string, n: int) {
    exists space, digits, rest :: AllSpace(space) && tail == space + (digits + rest) && IsRun(digits, rest, n)
  }

  ghost predicate IsRun(digits: string, rest: string, n: int) {
    && digits != "" && (rest == "" || DigitVal(rest[0], 10).None?)
    && AllDigits(digits, 10) && ValueOf(digits, 10) == n
  }

  /** A code is read exactly when the text starts with one that fits into 64 bits. */
  lemma ReadCodeIff(tail: string, n: int)
    ensures ReadCode(tail) == Some(n) <==> StartsWithNumber(tail, n) && n <= I64_MAX
  {
    hide ParseI64, ValueOf, TrimStart, LeadingDigits;
    var s := TrimStart(tail);
    var digits := LeadingDigits(s);
    var space := TrimStartSplits(tail);
    var rest := LeadingDigitsSplit(s);
    if digits != "" {
      FirstIsDigit(digits);
      ParseI64OfDigits(digits);
      assert IsRun(digits, rest, ValueOf(digits, 10));
    } else {
      NoDigitsNoCode();
    }
    forall space, digits, rest | AllSpace(space) && tail == space + (digits + rest) && IsRun(digits, rest, n)
      ensures ReadCode(tail) == if n <= I64_MAX then Some(n) else None
    {
      FirstIsDigit(digits);
      TrimStartPadded(space, digits + rest);
      TrimStartOfDigits(digits + rest);
      LeadingRun(digits, rest);
      ParseI64OfDigits(digits);
    }
  }

  lemma NoDigitsNoCode()
    ensures ParseI64("") == None
  {
  }

  lemma FirstIsDigit(digits: string)
    requires digits != "" && AllDigits(digits, 10)
    ensures '0' <= digits[0] <= '9'
  {
    assert DigitVal(digits[0], 10).Some?;
  }

  lemma TrimStartOfDigits(s: string)
    requires s != "" && '0' <= s[0] <= '9'
    ensures TrimStart(s) == s
  {
  }

  lemma {:induction false} LeadingDigitsSplit(s: string) returns (rest: string)
    ensures s == LeadingDigits(s) + rest && (rest == "" || DigitVal(rest[0], 10).None?)
  {
    rest := s;
    if s != "" && '0' <= s[0] <= '9' {
      rest := LeadingDigitsSplit(s[1..]);
    }
  }

  lemma {:induction false} LeadingRun(digits: string, rest: string)
    requires AllDigits(digits, 10) && (rest == "" || DigitVal(rest[0], 10).None?)
    ensures LeadingDigits(digits + rest) == digits
  {
    if digits != "" {
      assert DigitVal(digits[0], 10).Some?;
      assert (digits + rest)[1..] == digits[1..] + rest;
      LeadingRun(digits[1..], rest);
    }
  }

  /** The cut at the next token makes no difference: reading ends there anyhow. */
  lemma ParsedBehindToken(s: string, at: nat)
    requires FindFrom(s, TOKEN, 0) == Some(at)
    ensures ParsedExitCode(s) == ReadCode(s[at + |TOKEN|..])
  {
    hide ReadCode;
    var tail := s[at + |TOKEN|..];
    var next := FindFrom(tail, TOKEN, 0);
    if next.Some? {
      var n := next.value;
      assert tail[n] == tail[n..n + |TOKEN|][0] == 'e';
      assert tail == tail[..n] + ['e'] + tail[n + 1..];
      ReadCodeStops(tail[..n], 'e', tail[n + 1..]);
    }
  }

  // ---- reading back a printed number ----------------------------------------

  lemma {:induction false} LeadingDigitsAll(s: string, c: char, rest: string)
    requires forall i :: 0 <= i < |s| ==> '0' <= s[i] <= '9'
    requires !('0' <= c <= '9')
    ensures LeadingDigits(s + [c] + rest) == s
  {
    if s != "" {
      assert (s + [c] + rest)[1..] == s[1..] + [c] + rest;
      LeadingDigitsAll(s[1..], c, rest);
    }
  }

  lemma {:induction false} ShowNatDigits(n: nat)
    ensures forall i :: 0 <= i < |ShowNat(n)| ==> '0' <= ShowNat(n)[i] <= '9'
  {
    if n >= 10 {
      ShowNatDigits(n / 10);
    }
  }

  lemma ParseI64OfDigits(s: string)
    requires s != "" && AllDigits(s, 10) && '0' <= s[0] <= '9'
    ensures ParseI64(s) == if ValueOf(s, 10) <= I64_MAX then Some(ValueOf(s, 10)) else None
  {
  }

  /** A code that is not negative reads back as itself, a negative one not at all. */
  lemma ReadCodeOfShow(n: int, c: char, rest: string)
    requires !('0' <= c <= '9')
    ensures ReadCode(Show(n) + [c] + rest) == if 0 <= n <= I64_MAX then Some(n) else None
  {
    var text := Show(n) + [c] + rest;
    if n < 0 {
      assert text[0] == '-';
    } else {
      ShowNatDigits(n);
      ShowNatReads(n);
      hide ShowNat, ValueOf, AllDigits, LeadingDigits;
      assert text[0] == ShowNat(n)[0];
      assert TrimStart(text) == text;
      LeadingDigitsAll(ShowNat(n), c, rest);
      ParseI64OfDigits(ShowNat(n));
    }
  }

  // ---- where the first token is ---------------------------------------------

  predicate Has(s: string, c: char) {
    exists i :: 0 <= i < |s| && s[i] == c
  }

  /** A token ends in `=` and has no bracket or space in it. */
  lemma NoTokenHere(s: string, at: nat, i: nat)
    requires at <= i < at + 10 && i < |s|
    requires s[i] in "[] " || (i == at + 9 && s[i] != '=')
    ensures !OccursAt(s, TOKEN, at)
  {
    if at + 10 <= |s| {
      assert s[at..at + 10][i - at] == s[i];
    }
  }

  lemma FirstIs(s: string, at: nat)
    requires OccursAt(s, TOKEN, at)
    requires forall j: nat :: j < at ==> !OccursAt(s, TOKEN, j)
    ensures FindFrom(s, TOKEN, 0) == Some(at)
  {
  }

  /** Behind a text without `=` the first token is the one that follows. */
  lemma TokenBehind(pre: string, rest: string)
    requires !Has(pre, '=')
    ensures FindFrom(pre + TOKEN + rest, TOKEN, 0) == Some(|pre|)
  {
    var s := pre + TOKEN + rest;
    forall at: nat | at < |pre|
      ensures !OccursAt(s, TOKEN, at)
    {
      if at + 9 < |pre| {
        assert s[at + 9] == pre[at + 9];
      } else {
        assert s[at + 9] == TOKEN[at + 9 - |pre|];
      }
      NoTokenHere(s, at, at + 9);
    }
    FirstIs(s, |pre|);
  }

  const OPEN: nat := |REJECTED| + 1

  /** In front of the error code, and across its opening bracket, there is no token. */
  lemma NoTokenBeforeCode(code: string, rest: string, at: nat)
    requires at < OPEN
    ensures !OccursAt(REJECTED + "[" + code + rest, TOKEN, at)
  {
    var s := REJECTED + "[" + code + rest;
    if at + 10 <= |REJECTED| {
      assert s[at + 9] == REJECTED[at + 9];
      assert !Has(REJECTED, '=');
      NoTokenHere(s, at, at + 9);
    } else {
      NoTokenHere(s, at, |REJECTED|);
    }
  }

  lemma CodeSlice(code: string, rest: string, at: nat)
    requires at + 10 <= |code|
    ensures OccursAt(REJECTED + "[" + code + rest, TOKEN, OPEN + at) <==> OccursAt(code, TOKEN, at)
  {
    var s := REJECTED + "[" + code + rest;
    assert s[OPEN + at..OPEN + at + 10] == code[at..at + 10];
  }

  /** With no token in the error code, the first token of the text is the printed one. */
  lemma TokenBehindCode(code: string, rest: string)
    requires !Contains(code, TOKEN)
    ensures FindFrom(REJECTED + "[" + code + "]: " + TOKEN + rest, TOKEN, 0) == Some(OPEN + |code| + 3)
  {
    var tail := "]: " + TOKEN + rest;
    var s := REJECTED + "[" + code + tail;
    assert s == REJECTED + "[" + code + "]: " + TOKEN + rest;
    var first := OPEN + |code| + 3;
    assert s[first..first + 10] == TOKEN;
    forall at: nat | at < first
      ensures !OccursAt(s, TOKEN, at)
    {
      hide OccursAt;
      NoTokenBeforePrinted(code, rest, at);
    }
    FirstIs(s, first);
  }

  lemma NoTokenBeforePrinted(code: string, rest: string, at: nat)
    requires !Contains(code, TOKEN) && at < OPEN + |code| + 3
    ensures !OccursAt(REJECTED + "[" + code + ("]: " + TOKEN + rest), TOKEN, at)
  {
    var tail := "]: " + TOKEN + rest;
    if at < OPEN {
      NoTokenBeforeCode(code, tail, at);
    } else if at + 10 <= OPEN + |code| {
      CodeSlice(code, tail, at - OPEN);
    } else {
      var s := REJECTED + "[" + code + tail;
      assert s[at + 9] == tail[at + 9 - OPEN - |code|];
      NoTokenHere(s, at, at + 9);
    }
  }

  /** With a token in the error code, that is the one that is read, whatever follows. */
  lemma TokenInsideCode(code: string, rest: string)
    requires Contains(code, TOKEN)
    ensures FindFrom(code, TOKEN, 0).Some?
    ensures ParsedExitCode(REJECTED + "[" + code + "]" + rest) == ReadCode(code[FindFrom(code, TOKEN, 0).value + 10..])
  {
    hide ReadCode, FindFrom, ParsedExitCode, OccursAt;
    var q := FindFrom(code, TOKEN, 0).value;
    var tail := "]" + rest;
    var s := REJECTED + "[" + code + tail;
    assert s == REJECTED + "[" + code + "]" + rest;
    FirstInsideCode(code, tail);
    ParsedBehindToken(s, OPEN + q);
    assert s[OPEN + q + |TOKEN|..] == code[q + 10..] + [']'] + rest by {
      assert |TOKEN| == 10 && q + 10 <= |code|;
    }
    ReadCodeStops(code[q + 10..], ']', rest);
  }

  lemma FirstInsideCode(code: string, tail: string)
    requires Contains(code, TOKEN)
    ensures FindFrom(code, TOKEN, 0).Some? && FindFrom(code, TOKEN, 0).value + 10 <= |code|
    ensures FindFrom(REJECTED + "[" + code + tail, TOKEN, 0) == Some(OPEN + FindFrom(code, TOKEN, 0).value)
  {
    var q := FindFrom(code, TOKEN, 0).value;
    var s := REJECTED + "[" + code + tail;
    forall at: nat | at < OPEN + q
      ensures !OccursAt(s, TOKEN, at)
    {
      hide OccursAt;
      if at < OPEN {
        NoTokenBeforeCode(code, tail, at);
      } else {
        CodeSlice(code, tail, at - OPEN);
      }
    }
    CodeSlice(code, tail, q);
    FirstIs(s, OPEN + q);
  }

  // ---- what survives printing and reading -----------------------------------

  /** A code printed in the rejection text reads back as itself if it is not negative, and
      not at all if it is, provided the error code has no token of its own. */
  lemma RejectedReads(code: string, n: int, message: string, shown: string)
    requires !Contains(code, TOKEN)
    ensures ParsedExitCode(RejectedText(code, Some(n), message, shown)) == if 0 <= n <= I64_MAX then Some(n) else None
  {
    hide ReadCode, ParsedExitCode, Show;
    var text := RejectedText(code, Some(n), message, shown);
    var rest := message + "; error=" + shown;
    assert text == REJECTED + "[" + code + "]: " + TOKEN + (Show(n) + " " + rest);
    TokenBehindCode(code, Show(n) + " " + rest);
    var at := OPEN + |code| + 3;
    ParsedBehindToken(text, at);
    assert text[at + |TOKEN|..] == Show(n) + " " + rest;
    ReadCodeOfShow(n, ' ', rest);
  }

  /** The proviso is exact: with a token in the error code, what is read does not depend on
      the printed code at all. */
  lemma RejectedReadsIff(code: string)
    ensures (forall n, message, shown :: 0 <= n <= I64_MAX ==>
               ParsedExitCode(RejectedText(code, Some(n), message, shown)) == Some(n))
            <==> !Contains(code, TOKEN)
  {
    hide ParsedExitCode, Contains, ReadCode;
    if !Contains(code, TOKEN) {
      forall n, message, shown | 0 <= n <= I64_MAX
        ensures ParsedExitCode(RejectedText(code, Some(n), message, shown)) == Some(n)
      {
        RejectedReads(code, n, message, shown);
      }
    } else {
      InsideCodeWins(code, 0);
      InsideCodeWins(code, 1);
    }
  }

  lemma InsideCodeWins(code: string, n: int)
    requires Contains(code, TOKEN)
    ensures FindFrom(code, TOKEN, 0).Some?
    ensures ParsedExitCode(RejectedText(code, Some(n), "", "")) == ReadCode(code[FindFrom(code, TOKEN, 0).value + 10..])
  {
    hide ParsedExitCode, Contains, ReadCode, Show;
    var rest := ": " + TOKEN + Show(n) + " " + "" + "; error=" + "";
    assert RejectedText(code, Some(n), "", "") == REJECTED + "[" + code + "]" + rest;
    TokenInsideCode(code, rest);
  }

  lemma NoEqualsInFixedTexts()
    ensures !Has(NONZERO, '=') && !Has(ABORTED, '=')
  {
    NoEqualsIn("block manager result reports ", "a nonzero compute ");
    NoEqualsIn("block manager result reports ", "an aborted transaction (");
  }

  lemma NoEqualsIn(a: string, b: string)
    requires !Has(a, '=') && !Has(b, '=')
    ensures !Has(a + b, '=')
  {
  }

  lemma NonzeroReads(n: int, aborted: Option<bool>, shown: string)
    ensures ParsedExitCode(NonzeroText(n, aborted, shown)) == if 0 <= n <= I64_MAX then Some(n) else None
  {
    hide ReadCode, ParsedExitCode, Show;
    var text := NonzeroText(n, aborted, shown);
    var rest := "(aborted=" + ShowOptBool(aborted) + "): " + shown;
    assert text == NONZERO + TOKEN + (Show(n) + " " + rest);
    NoEqualsInFixedTexts();
    TokenBehind(NONZERO, Show(n) + " " + rest);
    ParsedBehindToken(text, |NONZERO|);
    assert text[|NONZERO| + |TOKEN|..] == Show(n) + " " + rest;
    ReadCodeOfShow(n, ' ', rest);
  }

  /** An aborted result without a nonzero code prints `Some(0)` or `None`: nothing is read. */
  lemma AbortedReadsNothing(exit: Option<int>, shown: string)
    ensures ParsedExitCode(AbortedText(exit, shown)) == None
  {
    hide ReadCode, ParsedExitCode, Show;
    var text := AbortedText(exit, shown);
    var rest := ShowOptInt(exit) + "): " + shown;
    assert text == ABORTED + TOKEN + rest;
    NoEqualsInFixedTexts();
    TokenBehind(ABORTED, rest);
    ParsedBehindToken(text, |ABORTED|);
    assert text[|ABORTED| + |TOKEN|..] == rest;
    assert rest == "" + [rest[0]] + rest[1..];
    assert Stops(rest[0]);
    ReadCodeStops("", rest[0], rest[1..]);
    ReadNothing();
  }

  lemma ReadNothing()
    ensures ReadCode("") == None
  {
  }

  /** The exit code a rejected reply stands for: the one found in its error object, or the
      nonzero one of its result. */
  function CodeOf(resp: Value): Option<int> {
    var err := resp.Get("error");
    if err.Some? && err.value != Null then ExtractExitCode(err.value)
    else if ResultExit(resp).Some? && ResultExit(resp).value != 0 then ResultExit(resp)
    else None
  }

  /** The error code of the reply does not itself look like an exit code. */
  predicate PlainErrorCode(resp: Value) {
    !Contains(ErrorCodeOf(resp), TOKEN)
  }

  function ErrorCodeOf(resp: Value): string {
    OrElse(StrField(resp.Get("error"), "code"), "UNKNOWN")
  }

  /** The reply carries an error object without any exit code. */
  predicate Codeless(resp: Value) {
    var err := resp.Get("error");
    err.Some? && err.value != Null && ExtractExitCode(err.value).None?
  }

  function MessageOf(resp: Value): string {
    OrElse(StrField(resp.Get("error"), "message"), "(no message)")
  }

  /** What the free text of a codeless rejection looks like to the reader of exit codes. */
  function FreeTextCode(resp: Value, show: Value -> string): Option<int>
    requires Codeless(resp)
  {
    ParsedExitCode(MessageOf(resp) + "; error=" + show(resp.Get("error").value))
  }

  /** Without a printed code the reader falls through to the message and the printed object:
      what it reads is what it would read from them alone. */
  lemma CodelessReads(code: string, message: string, shown: string)
    requires !Contains(code, TOKEN)
    ensures ParsedExitCode(RejectedText(code, None, message, shown)) == ParsedExitCode(message + "; error=" + shown)
  {
    hide ParsedExitCode, ReadCode, Contains, OccursAt, FindFrom;
    var rest := message + "; error=" + shown;
    var tail := "]: " + rest;
    var s := REJECTED + "[" + code + tail;
    assert s == RejectedText(code, None, message, shown);
    var start := OPEN + |code| + 3;
    assert s[start..] == rest;
    forall at: nat | at < start
      ensures !OccursAt(s, TOKEN, at)
    {
      NoTokenBeforeRest(code, rest, at);
    }
    ShiftedParse(s, start);
  }

  lemma NoTokenBeforeRest(code: string, rest: string, at: nat)
    requires !Contains(code, TOKEN) && at < OPEN + |code| + 3
    ensures !OccursAt(REJECTED + "[" + code + ("]: " + rest), TOKEN, at)
  {
    var tail := "]: " + rest;
    var s := REJECTED + "[" + code + tail;
    if at < OPEN {
      NoTokenBeforeCode(code, tail, at);
    } else if at + 10 <= OPEN + |code| {
      CodeSlice(code, tail, at - OPEN);
    } else {
      // it would have to run across the bracket or the space behind the code
      var i := if at <= OPEN + |code| then OPEN + |code| else OPEN + |code| + 2;
      assert s[i] == tail[i - OPEN - |code|];
      NoTokenHere(s, at, i);
    }
  }

  /** A text reads as what is left of it once a front without a token is dropped. */
  lemma ShiftedParse(s: string, start: nat)
    requires start <= |s| && forall at: nat :: at < start ==> !OccursAt(s, TOKEN, at)
    ensures ParsedExitCode(s) == ParsedExitCode(s[start..])
  {
    hide ReadCode, ParsedExitCode, Segment;
    var rest := s[start..];
    var found := FindFrom(rest, TOKEN, 0);
    if found.Some? {
      var at := found.value;
      ShiftedFind(s, start, at);
      assert s[start + at + |TOKEN|..] == rest[at + |TOKEN|..];
      ParsedBehindToken(s, start + at);
      ParsedBehindToken(rest, at);
    } else {
      var whole := FindFrom(s, TOKEN, 0);
      if whole.Some? {
        SliceOccurs(s, start, whole.value - start);
      }
      NothingParsed(s);
      NothingParsed(rest);
    }
  }

  lemma NothingParsed(s: string)
    requires FindFrom(s, TOKEN, 0).None?
    ensures ParsedExitCode(s) == None
  {
  }

  lemma ShiftedFind(s: string, start: nat, at: nat)
    requires start <= |s| && forall j: nat :: j < start ==> !OccursAt(s, TOKEN, j)
    requires FindFrom(s[start..], TOKEN, 0) == Some(at)
    ensures FindFrom(s, TOKEN, 0) == Some(start + at)
  {
    hide FindFrom, OccursAt;
    SliceOccurs(s, start, at);
    forall j: nat | j < start + at
      ensures !OccursAt(s, TOKEN, j)
    {
      if j >= start {
        SliceOccurs(s, start, j - start);
      }
    }
    FirstIs(s, start + at);
  }

  lemma SliceOccurs(s: string, start: nat, at: nat)
    requires start <= |s|
    ensures OccursAt(s[start..], TOKEN, at) <==> OccursAt(s, TOKEN, start + at)
  {
    if start + at + 10 <= |s| {
      assert s[start..][at..at + 10] == s[start + at..start + at + 10];
    }
  }

  /** What is read from the error text of a rejected reply, in every case: whatever the error
      code looks like if it has a token in it; otherwise the printed code unless it is
      negative, nothing for an aborted result without one, and for a codeless error object
      whatever its free text looks like. */
  function ReadBack(resp: Value, show: Value -> string): Option<int> {
    if !PlainErrorCode(resp) then ParsedExitCode(ErrorCodeOf(resp))
    else if Codeless(resp) then FreeTextCode(resp, show)
    else if CodeOf(resp).Some? && CodeOf(resp).value >= 0 then CodeOf(resp)
    else None
  }

  lemma RejectionReads(resp: Value, show: Value -> string)
    requires Refused(resp)
    ensures CheckBmError(resp, show).Err?
    ensures ParsedExitCode(CheckBmError(resp, show).error) == ReadBack(resp, show)
  {
    RejectedIff(resp, show);
    hide Refused;
    hide ParsedExitCode, Contains, RejectedText, NonzeroText, AbortedText, ExtractExitCode;
    var err := resp.Get("error");
    if err.Some? && err.value != Null {
      var code := ErrorCodeOf(resp);
      if !PlainErrorCode(resp) {
        OddCodeReads(code, ExtractExitCode(err.value), MessageOf(resp), show(err.value));
      } else if Codeless(resp) {
        CodelessReads(code, MessageOf(resp), show(err.value));
      } else {
        CodesFit(err.value);
        RejectedReads(code, CodeOf(resp).value, MessageOf(resp), show(err.value));
      }
    } else {
      UnknownIsPlain();
      if CodeOf(resp).Some? {
        NonzeroReads(ResultExit(resp).value, ResultAborted(resp), show(resp));
      } else {
        AbortedReadsNothing(ResultExit(resp), show(resp));
      }
    }
  }

  lemma UnknownIsPlain()
    ensures !Contains("UNKNOWN", TOKEN)
  {
  }

  /** An error code with a token in it is read as if it were the whole text. */
  lemma OddCodeReads(code: string, exit: Option<int>, message: string, shown: string)
    requires Contains(code, TOKEN)
    ensures ParsedExitCode(RejectedText(code, exit, message, shown)) == ParsedExitCode(code)
  {
    hide ParsedExitCode, Contains, ReadCode, Show;
    var rest := ":" + (if exit.Some? then " " + TOKEN + Show(exit.value) else "") + " " + message + "; error=" + shown;
    assert RejectedText(code, exit, message, shown) == REJECTED + "[" + code + "]" + rest;
    TokenInsideCode(code, rest);
    ParsedBehindToken(code, FindFrom(code, TOKEN, 0).value);
  }

  /** Every reply with a code is rejected, and if the code is not negative, it reads back and
      the failure is explained as 403 or 137 exactly for those codes: a neighbour like 4030 is not. */
  lemma ExplainedByCode(resp: Value, show: Value -> string)
    requires PlainErrorCode(resp) && CodeOf(resp).Some?
    ensures CheckBmError(resp, show).Err?
    ensures var text := CheckBmError(resp, show).error;
            0 <= CodeOf(resp).value ==>
              && ParsedExitCode(text) == CodeOf(resp)
              && (ExplainSubmitAbort(text) == InvalidHistoryProof <==> CodeOf(resp) == Some(403))
              && (ExplainSubmitAbort(text) == InvalidZkProof <==> CodeOf(resp) == Some(137))
  {
    RejectedIff(resp, show);
    hide Refused, ExtractExitCode, ResultExit, RejectedText, NonzeroText, AbortedText;
    RejectionReads(resp, show);
  }

  /** The code of an executed result, read off its keys: it is explained unless it is 0. */
  lemma ResultIsExplained(resp: Value, n: Int64, show: Value -> string)
    requires !HasError(resp) && ResultHas(resp, "exit_code", Int(n)) && n != 0
    ensures CheckBmError(resp, show).Err?
    ensures var text := CheckBmError(resp, show).error;
            && ParsedExitCode(text) == (if n > 0 then Some(n) else None)
            && ExplainSubmitAbort(text) == (if n == 403 then InvalidHistoryProof
                                            else if n == 137 then InvalidZkProof else Other)
  {
    ResultParts(resp, "exit_code");
    hide Pointer, ParsedExitCode, NonzeroText, RejectedText, AbortedText, Contains, ExtractExitCode;
    NonzeroReads(n, ResultAborted(resp), show(resp));
  }

  /** A rejected reply with a negative code or with none is explained as neither of the two
      exactly when it is not an error object without a code whose free text reads as one of
      them. */
  lemma OthersAreOther(resp: Value, show: Value -> string)
    requires Refused(resp) && PlainErrorCode(resp)
    requires CodeOf(resp).None? || CodeOf(resp).value < 0
    ensures CheckBmError(resp, show).Err?
    ensures ExplainSubmitAbort(CheckBmError(resp, show).error) == Other
            <==> !(Codeless(resp) && FreeTextCode(resp, show) in {Some(403), Some(137)})
  {
    RejectionReads(resp, show);
  }

  /** The reply `{error: {code: "X", message}}`. */
  function RefusedWith(message: string): Value {
    Obj([Field("error", Obj([Field("code", Str("X")), Field("message", Str(message))]))])
  }

  /** The exception is real: a message that merely mentions `exit_code=403`, or any other
      number, is taken for the code of a reply that has none. */
  lemma MessageIsMistaken(n: nat, show: Value -> string)
    requires n <= I64_MAX
    ensures var resp := RefusedWith(TOKEN + Show(n));
            && CheckBmError(resp, show).Err? && PlainErrorCode(resp) && CodeOf(resp).None?
            && ParsedExitCode(CheckBmError(resp, show).error) == Some(n)
            && (n == 403 ==> ExplainSubmitAbort(CheckBmError(resp, show).error) == InvalidHistoryProof)
            && (n == 137 ==> ExplainSubmitAbort(CheckBmError(resp, show).error) == InvalidZkProof)
  {
    var message := TOKEN + Show(n);
    var resp := RefusedWith(message);
    RefusedShape(message);
    hide Show, ReadCode, ParsedExitCode, ExtractExitCode, FindFrom, Contains, RefusedWith, StrField;
    RejectionReads(resp, show);
    var shown := show(resp.Get("error").value);
    var text := message + "; error=" + shown;
    assert text == "" + TOKEN + (Show(n) + [';'] + (" error=" + shown));
    TokenBehind("", Show(n) + [';'] + (" error=" + shown));
    ParsedBehindToken(text, 0);
    assert text[0 + |TOKEN|..] == Show(n) + [';'] + (" error=" + shown);
    ReadCodeOfShow(n, ';', " error=" + shown);
  }

  lemma RefusedShape(message: string)
    ensures var resp := RefusedWith(message);
            && Codeless(resp) && PlainErrorCode(resp) && CodeOf(resp).None? && MessageOf(resp) == message
            && resp.Get("error").Some? && resp.Get("error").value != Null
  {
    var resp := RefusedWith(message);
    var fields := [Field("code", Str("X")), Field("message", Str(message))];
    assert resp.Get("error") == Some(Obj(fields));
    assert Find(fields[1..], "message") == Some(Str(message));
    assert fields[1..] == [fields[1]] && fields[1..][1..] == [];
    assert !IsExitCodeKey("code") && !IsExitCodeKey("message") by {
      assert |Lower("code")| == 4 && |Lower("message")| == 7;
      assert Lower("code")[0] == 'c';
      assert Lower("message")[0] == 'm';
    }
    assert ExtractFromFields(fields[1..][1..]) == None;
    assert ExtractFromFields(fields[1..]) == None;
    assert ExtractFromFields(fields) == None;
  }
}
