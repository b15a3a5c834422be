/** Detection rules: matching, validation at load, and rendering of messages. */
module Rules {
  import opened Wrappers
  import opened Collections

  datatype Severity = Low | Medium | High | Critical

  datatype EventKind = ExecEvent | WriteEvent | ConnectEvent

  datatype Field = Path | Basename | AncestryPath | AncestryBasename | Argv | Uid | DstIp | DstPort

  datatype Op = Prefix | Suffix | Contains | Exact

  datatype Condition = Condition(field: Field, op: Op, values: seq<string>)

  datatype Match = Match(all: seq<Condition>, any: seq<Condition>, not: seq<Condition>)

  datatype Correlate = Correlate(after: string, within: string, sameProcess: bool)

  datatype Rule = Rule(
    id: string,
    severity: Severity,
    attack: seq<string>,
    on: EventKind,
    matching: Match,
    correlate: Option<Correlate>,
    message: string)

  datatype EventFacts = EventFacts(
    kind: EventKind,
    path: string,
    ancestry: seq<string>,
    argv: seq<string>,
    uid: nat,
    dstIp: string,
    dstPort: nat)

  // ---------------------------------------------------------------- strings

  function Decimal(n: nat): (s: string)
    ensures s != "" && forall c | c in s :: '0' <= c <= '9'
  {
    var digit := ['0' + (n % 10) as char];
    if n < 10 then digit else Decimal(n / 10) + digit
  }

  /** What follows the last slash. */
  function BasenameOf(s: string): string {
    var i := Find(s, '/');
    if i == |s| then s else BasenameOf(s[i + 1..])
  }

  /** `b` is the part of `s` behind all slashes. */
  ghost predicate IsBasename(s: string, b: string) {
    '/' !in b && (b == s || exists dir :: s == dir + "/" + b)
  }

  lemma {:induction false} BasenameIsOne(s: string)
    ensures IsBasename(s, BasenameOf(s))
  {
    var i := Find(s, '/');
    if i == |s| {
      assert s[..i] == s;
    } else {
      BasenameIsOne(s[i + 1..]);
      BehindOneSlash(s, i, BasenameOf(s[i + 1..]));
    }
  }

  lemma {:induction false} BehindOneSlash(s: string, i: nat, b: string)
    requires i < |s| && s[i] == '/' && IsBasename(s[i + 1..], b)
    ensures IsBasename(s, b)
  {
    var front, rest := s[..i], s[i + 1..];
    assert s == front + "/" + rest;
    if b != rest {
      var dir :| rest == dir + "/" + b;
      assert s == (front + "/" + dir) + "/" + b;
    }
  }

  lemma {:induction false} SameBasename(dir: string, b: string, other: string, c: string)
    requires '/' !in b && '/' !in c && dir + "/" + b == other + "/" + c
    ensures b == c
  {
    var s := dir + "/" + b;
    assert s[|dir|] == '/' && s[|other|] == '/' by { assert s == other + "/" + c; }
    assert forall n | |dir| < n < |s| :: s[n] == b[n - |dir| - 1];
    assert forall n | |other| < n < |s| :: s[n] == c[n - |other| - 1];
    assert s[|dir| + 1..] == b && s[|other| + 1..] == c;
  }

  lemma {:induction false} OnlyBasename(s: string, b: string)
    ensures IsBasename(s, b) <==> b == BasenameOf(s)
  {
    hide BasenameOf;
    BasenameIsOne(s);
    var r := BasenameOf(s);
    if IsBasename(s, b) && b != s && r != s {
      var dir, other :| s == dir + "/" + b && s == other + "/" + r;
      SameBasename(dir, b, other, r);
    }
  }

  predicate OccursAt(s: string, t: string, i: nat) {
    i + |s| <= |t| && t[i..i + |s|] == s
  }

  predicate IsSubstring(s: string, t: string) {
    exists i | 0 <= i <= |t| :: OccursAt(s, t, i)
  }

  // ---------------------------------------------------------------- matching

  predicate MatchesStr(op: Op, haystack: string, needle: string) {
    match op
    case Prefix => needle <= haystack
    case Suffix => |needle| <= |haystack| && haystack[|haystack| - |needle|..] == needle
    case Contains => IsSubstring(needle, haystack)
    case Exact => haystack == needle
  }

  /** What the operators mean: the needle with text after it, before it, on both sides, or alone. */
  lemma OperatorsMean(haystack: string, needle: string)
    ensures MatchesStr(Prefix, haystack, needle) <==> exists rest :: haystack == needle + rest
    ensures MatchesStr(Suffix, haystack, needle) <==> exists front :: haystack == front + needle
    ensures MatchesStr(Contains, haystack, needle) <==> exists front, rest :: haystack == front + needle + rest
    ensures MatchesStr(Exact, haystack, needle) <==> haystack == needle
  {
    hide IsSubstring;
    if needle <= haystack { assert haystack == needle + haystack[|needle|..]; }
    if MatchesStr(Suffix, haystack, needle) {
      assert haystack == haystack[..|haystack| - |needle|] + needle;
    }
    SubstringMeans(haystack, needle);
  }

  lemma SubstringMeans(haystack: string, needle: string)
    ensures IsSubstring(needle, haystack) <==> exists front, rest :: haystack == front + needle + rest
  {
    if i :| 0 <= i <= |haystack| && OccursAt(needle, haystack, i) {
      assert haystack == haystack[..i] + needle + haystack[i + |needle|..];
    }
    if front, rest :| haystack == front + needle + rest {
      assert OccursAt(needle, haystack, |front|);
    }
  }

  // ---------------------------------------------------------------- what a rule asks of an event

  /** `text` is the needle with something after it, before it, on both sides, or nothing. */
  ghost predicate IsMatch(op: Op, text: string, needle: string) {
    match op
    case Prefix => exists rest :: text == needle + rest
    case Suffix => exists front :: text == front + needle
    case Contains => exists front, rest :: text == front + needle + rest
    case Exact => text == needle
  }

  /** `text` is one of the texts of the event that a condition on the field is about. */
  ghost predicate IsTextOf(field: Field, facts: EventFacts, text: string) {
    match field
    case Path => text == facts.path
    case Basename => IsBasename(facts.path, text)
    case AncestryPath => text in facts.ancestry
    case AncestryBasename => exists a :: a in facts.ancestry && IsBasename(a, text)
    case Argv => text in facts.argv
    case Uid => IsNumeral(facts.uid, text)
    case DstIp => text == facts.dstIp
    case DstPort => IsNumeral(facts.dstPort, text)
  }

  /** Some text of the event matches some value of the condition. */
  ghost predicate Holds(c: Condition, facts: EventFacts) {
    exists text, value :: IsTextOf(c.field, facts, text) && value in c.values && IsMatch(c.op, text, value)
  }

  /** The kinds agree, every `all` condition holds, some `any` condition holds if there are any, and no `not`
      condition holds. */
  ghost predicate Matches(r: Rule, facts: EventFacts) {
    && r.on == facts.kind
    && (forall c | c in r.matching.all :: Holds(c, facts))
    && (r.matching.any == [] || exists c :: c in r.matching.any && Holds(c, facts))
    && (forall c | c in r.matching.not :: !Holds(c, facts))
  }

  /** A condition holds when some text it is about and some of its values fit. */
  lemma HoldsMeans(c: Condition, facts: EventFacts)
    ensures Holds(c, facts) <==>
            exists text, value ::
              && IsTextOf(c.field, facts, text) && value in c.values && IsMatch(c.op, text, value)
              && (match c.field
                  case Path => text == facts.path
                  case Basename => '/' !in text && (text == facts.path || exists dir :: facts.path == dir + "/" + text)
                  case AncestryPath => text in facts.ancestry
                  case AncestryBasename =>
                    '/' !in text && exists a :: a in facts.ancestry && (text == a || exists dir :: a == dir + "/" + text)
                  case Argv => text in facts.argv
                  case Uid => text == Decimal(facts.uid)
                  case DstIp => text == facts.dstIp
                  case DstPort => text == Decimal(facts.dstPort))
              && (match c.op
                  case Prefix => exists rest :: text == value + rest
                  case Suffix => exists front :: text == front + value
                  case Contains => exists front, rest :: text == front + value + rest
                  case Exact => text == value)
  {
    hide Decimal, IsNumeral;
    forall text
      ensures IsNumeral(facts.uid, text) <==> text == Decimal(facts.uid)
      ensures IsNumeral(facts.dstPort, text) <==> text == Decimal(facts.dstPort)
    {
      OnlyNumeral(facts.uid, text);
      OnlyNumeral(facts.dstPort, text);
    }
  }

  // ---------------------------------------------------------------- evaluating a rule

  predicate AnyValue(c: Condition, haystack: string) {
    exists v :: v in c.values && MatchesStr(c.op, haystack, v)
  }

  predicate EvalCondition(c: Condition, facts: EventFacts) {
    match c.field
    case Path => AnyValue(c, facts.path)
    case Basename => AnyValue(c, BasenameOf(facts.path))
    case AncestryPath => exists a :: a in facts.ancestry && AnyValue(c, a)
    case AncestryBasename => exists a :: a in facts.ancestry && AnyValue(c, BasenameOf(a))
    case Argv => exists a :: a in facts.argv && AnyValue(c, a)
    case Uid => AnyValue(c, Decimal(facts.uid))
    case DstIp => AnyValue(c, facts.dstIp)
    case DstPort => AnyValue(c, Decimal(facts.dstPort))
  }

  lemma AnyValueMeans(c: Condition, text: string)
    ensures AnyValue(c, text) <==> exists value :: value in c.values && IsMatch(c.op, text, value)
  {
    forall value
      ensures MatchesStr(c.op, text, value) <==> IsMatch(c.op, text, value)
    {
      OperatorsMean(text, value);
    }
  }

  /** The texts a condition is evaluated on are those it is about. */
  lemma EvalFindsTexts(c: Condition, facts: EventFacts)
    ensures EvalCondition(c, facts) <==> exists text :: IsTextOf(c.field, facts, text) && AnyValue(c, text)
  {
    hide AnyValue, IsBasename, IsNumeral, BasenameOf, Decimal;
    forall s, b ensures IsBasename(s, b) <==> b == BasenameOf(s) { OnlyBasename(s, b); }
    forall n, s ensures IsNumeral(n, s) <==> s == Decimal(n) { OnlyNumeral(n, s); }
  }

  lemma EvalConditionMeans(c: Condition, facts: EventFacts)
    ensures EvalCondition(c, facts) <==> Holds(c, facts)
  {
    EvalFindsTexts(c, facts);
    hide EvalCondition, AnyValue, IsTextOf, IsMatch;
    forall text
      ensures AnyValue(c, text) <==> exists value :: value in c.values && IsMatch(c.op, text, value)
    {
      AnyValueMeans(c, text);
    }
  }

  method EvalMatch(m: Match, facts: EventFacts) returns (matched: bool)
    ensures matched <==>
            && (forall c | c in m.all :: Holds(c, facts))
            && (m.any == [] || exists c :: c in m.any && Holds(c, facts))
            && (forall c | c in m.not :: !Holds(c, facts))
  {
    hide EvalCondition, Holds;
    forall c ensures EvalCondition(c, facts) <==> Holds(c, facts) { EvalConditionMeans(c, facts); }
    if !(forall c | c in m.all :: EvalCondition(c, facts)) {
      return false;
    }
    if m.any != [] && !(exists c :: c in m.any && EvalCondition(c, facts)) {
      return false;
    }
    if exists c :: c in m.not && EvalCondition(c, facts) {
      return false;
    }
    return true;
  }

  /** A rule matches exactly the events that it asks for. */
  method RuleMatches(r: Rule, facts: EventFacts) returns (matched: bool)
    ensures matched <==> Matches(r, facts)
  {
    hide Holds;
    if r.on != facts.kind {
      return false;
    }
    matched := EvalMatch(r.matching, facts);
  }

  // ---------------------------------------------------------------- durations

  const U64_LIMIT: nat := 0x1_0000_0000_0000_0000

  predicate IsDigits(s: string) {
    forall i | 0 <= i < |s| :: '0' <= s[i] <= '9'
  }

  /** The white space of the Unicode Standard. */
  predicate IsSpace(c: char) {
    '\U{9}' <= c <= '\U{D}' || c in {' ', '\U{85}', '\U{A0}', '\U{1680}'} || '\U{2000}' <= c <= '\U{200A}'
    || c in {'\U{2028}', '\U{2029}', '\U{202F}', '\U{205F}', '\U{3000}'}
  }

  function TrimLeft(s: string): string {
    if s != "" && IsSpace(s[0]) then TrimLeft(s[1..]) else s
  }

  function TrimRight(s: string): string {
    if s != "" && IsSpace(s[|s| - 1]) then TrimRight(s[..|s| - 1]) else s
  }

  function Number(digits: string): nat
    requires IsDigits(digits)
  {
    if digits == "" then 0
    else Number(digits[..|digits| - 1]) * 10 + (digits[|digits| - 1] as int - '0' as int)
  }

  function DigitPrefix(s: string): (i: nat)
    ensures i <= |s| && IsDigits(s[..i]) && (i < |s| ==> !('0' <= s[i] <= '9'))
  {
    if s == "" || !('0' <= s[0] <= '9') then 0
    else
      var i := 1 + DigitPrefix(s[1..]);
      assert s[..i] == [s[0]] + s[1..][..i - 1];
      i
  }

  /** A count and a unit as milliseconds. Minutes are multiplied out in 64 bits first. */
  function Scale(n: nat, suffix: string): Option<nat> {
    if suffix == "s" then Some(n * 1000)
    else if suffix == "m" then Some(n * 60 % U64_LIMIT * 1000)
    else if suffix == "ms" then Some(n)
    else None
  }

  /** The length of a correlation window in milliseconds, if `within` is a duration. */
  function WindowOf(c: Correlate): Option<nat> {
    var s := TrimRight(TrimLeft(c.within));
    var i := DigitPrefix(s);
    if i == |s| || i == 0 || Number(s[..i]) >= U64_LIMIT then None
    else Scale(Number(s[..i]), s[i..])
  }

  lemma {:induction false} TrimLeftSkips(pad: string, s: string)
    requires (forall c | c in pad :: IsSpace(c)) && (s == "" || !IsSpace(s[0]))
    ensures TrimLeft(pad + s) == s
  {
    if pad == "" {
      assert pad + s == s;
    } else {
      assert (pad + s)[1..] == pad[1..] + s;
      TrimLeftSkips(pad[1..], s);
    }
  }

  lemma {:induction false} TrimRightSkips(s: string, pad: string)
    requires (forall c | c in pad :: IsSpace(c)) && (s == "" || !IsSpace(s[|s| - 1]))
    ensures TrimRight(s + pad) == s
  {
    if pad == "" {
      assert s + pad == s;
    } else {
      var n := |pad| - 1;
      assert (s + pad)[..|s + pad| - 1] == s + pad[..n];
      assert IsSpace((s + pad)[|s + pad| - 1]);
      TrimRightSkips(s, pad[..n]);
    }
  }

  lemma DigitsAndUnitsAreNoSpace(c: char)
    ensures '0' <= c <= '9' || c == 's' || c == 'm' ==> !IsSpace(c)
  {
  }

  lemma TrimTakesPadding(before: string, s: string, after: string)
    requires (forall x | x in before + after :: IsSpace(x)) && s != "" && !IsSpace(s[0]) && !IsSpace(s[|s| - 1])
    ensures TrimRight(TrimLeft(before + s + after)) == s
  {
    hide IsSpace;
    assert before + s + after == before + (s + after);
    assert forall x | x in before :: x in before + after;
    assert forall x | x in after :: x in before + after;
    TrimLeftSkips(before, s + after);
    TrimRightSkips(s, after);
  }

  lemma DigitsThenUnit(digits: string, suffix: string)
    requires IsDigits(digits) && suffix in ["s", "m", "ms"]
    ensures var s := digits + suffix;
            && DigitPrefix(s) == |digits| && s[..|digits|] == digits && s[|digits|..] == suffix
            && !IsSpace(s[0]) && !IsSpace(s[|s| - 1])
  {
    hide IsSpace;
    var s := digits + suffix;
    DigitsAndUnitsAreNoSpace(s[0]);
    DigitsAndUnitsAreNoSpace(s[|s| - 1]);
    assert s[|s| - 1] == suffix[|suffix| - 1] && s[0] == if digits == "" then suffix[0] else digits[0];
    var i := DigitPrefix(s);
    assert s[|digits|] == suffix[0];
  }

  lemma WindowIsScaled(c: Correlate, before: string, digits: string, suffix: string, after: string)
    requires forall x | x in before + after :: IsSpace(x)
    requires IsDigits(digits) && suffix in ["s", "m", "ms"]
    requires c.within == before + digits + suffix + after
    ensures WindowOf(c) == if digits == "" || Number(digits) >= U64_LIMIT then None else Scale(Number(digits), suffix)
  {
    hide IsSpace, TrimLeft, TrimRight, DigitPrefix, Number, Scale, IsDigits;
    DigitsThenUnit(digits, suffix);
    assert c.within == before + (digits + suffix) + after;
    TrimTakesPadding(before, digits + suffix, after);
  }

  /** A number with a known unit, padded by blanks, is read back as that many seconds, minutes or
      milliseconds; it is rejected exactly when it is empty or does not fit in 64 bits. */
  lemma WindowReadsBack(c: Correlate, before: string, digits: string, suffix: string, after: string)
    requires forall x | x in before + after :: IsSpace(x)
    requires IsDigits(digits) && suffix in ["s", "m", "ms"]
    requires c.within == before + digits + suffix + after
    ensures WindowOf(c).None? <==> digits == "" || Number(digits) >= 0x1_0000_0000_0000_0000
    ensures WindowOf(c).Some? && suffix == "ms" ==> WindowOf(c).value == Number(digits)
    ensures WindowOf(c).Some? && suffix == "s" ==> WindowOf(c).value == 1000 * Number(digits)
    ensures WindowOf(c).Some? && suffix == "m" && 60 * Number(digits) < 0x1_0000_0000_0000_0000 ==>
              WindowOf(c).value == 60_000 * Number(digits)
    ensures WindowOf(c).Some? && suffix == "m" ==>
              WindowOf(c).value == 60_000 * Number(digits) % (1000 * 0x1_0000_0000_0000_0000)
  {
    hide WindowOf, Number;
    WindowIsScaled(c, before, digits, suffix, after);
    assert "ms"[1] == 's' && |"m"| == 1 && "s"[0] == 's' && "m"[0] == 'm';
  }

  lemma {:induction false} TrimLeftSplits(s: string) returns (pad: string)
    ensures s == pad + TrimLeft(s) && forall c | c in pad :: IsSpace(c)
  {
    if s != "" && IsSpace(s[0]) {
      var rest := TrimLeftSplits(s[1..]);
      pad := [s[0]] + rest;
    } else {
      pad := "";
    }
  }

  lemma {:induction false} TrimRightSplits(s: string) returns (pad: string)
    ensures s == TrimRight(s) + pad && forall c | c in pad :: IsSpace(c)
  {
    if s != "" && IsSpace(s[|s| - 1]) {
      var rest := TrimRightSplits(s[..|s| - 1]);
      pad := rest + [s[|s| - 1]];
    } else {
      pad := "";
    }
  }

  /** Whatever is accepted as a window is a padded number with a known unit. */
  lemma WindowIsNumberWithUnit(c: Correlate) returns (before: string, digits: string, suffix: string, after: string)
    requires WindowOf(c).Some?
    ensures c.within == before + digits + suffix + after && forall x | x in before + after :: IsSpace(x)
    ensures IsDigits(digits) && digits != "" && Number(digits) < U64_LIMIT && suffix in ["s", "m", "ms"]
    ensures WindowOf(c) == Scale(Number(digits), suffix)
  {
    before := TrimLeftSplits(c.within);
    after := TrimRightSplits(TrimLeft(c.within));
    var s := TrimRight(TrimLeft(c.within));
    digits, suffix := s[..DigitPrefix(s)], s[DigitPrefix(s)..];
    assert s == digits + suffix;
    assert c.within == before + (digits + suffix + after);
  }

  /** A number written out in decimal reads back as itself. */
  lemma {:induction false} DecimalReadsBack(n: nat)
    ensures IsDigits(Decimal(n)) && Number(Decimal(n)) == n
  {
    var s := Decimal(n);
    if n >= 10 {
      DecimalReadsBack(n / 10);
      assert s[..|s| - 1] == Decimal(n / 10);
    } else {
      assert s[..|s| - 1] == "" && Number("") == 0;
    }
  }

  /** `s` is the number `n` in digits, without leading zeros. */
  ghost predicate IsNumeral(n: nat, s: string) {
    s != "" && IsDigits(s) && Number(s) == n && (|s| > 1 ==> s[0] != '0')
  }

  lemma {:induction false} NoLeadingZero(n: nat)
    ensures n > 0 ==> Decimal(n)[0] != '0'
  {
    if n >= 10 {
      NoLeadingZero(n / 10);
      assert Decimal(n)[0] == Decimal(n / 10)[0];
    }
  }

  lemma {:induction false} PositiveNumber(s: string)
    requires s != "" && IsDigits(s) && s[0] != '0'
    ensures Number(s) > 0
  {
    if |s| > 1 { PositiveNumber(s[..|s| - 1]); }
  }

  lemma {:induction false} NumeralIsDecimal(n: nat, s: string)
    requires IsNumeral(n, s)
    ensures s == Decimal(n)
    decreases |s|
  {
    var front, last := s[..|s| - 1], s[|s| - 1];
    var digit := last as int - '0' as int;
    assert n == Number(front) * 10 + digit && 0 <= digit < 10;
    if front == "" {
      assert Number(front) == 0 && s == [last];
    } else {
      PositiveNumber(front);
      NumeralIsDecimal(n / 10, front);
      assert s == front + [last];
    }
  }

  /** The decimal form is the one numeral of its number. */
  lemma OnlyNumeral(n: nat, s: string)
    ensures IsNumeral(n, s) <==> s == Decimal(n)
  {
    if IsNumeral(n, s) { NumeralIsDecimal(n, s); }
    if s == Decimal(n) {
      DecimalReadsBack(n);
      NoLeadingZero(n);
      if n == 0 { assert |s| == 1; }
    }
  }

  // ---------------------------------------------------------------- placeholders and validation

  const PLACEHOLDERS: seq<string> :=
    ["path", "basename", "argv", "uid", "dst_ip", "dst_port", "actor", "prior_path", "delay"]

  /** The names between braces, in order: each `{` is closed by the next `}`. */
  function Tokens(message: string): seq<string>
    decreases |message|
  {
    var open := Find(message, '{');
    if open == |message| then []
    else
      var after := message[open + 1..];
      var close := Find(after, '}');
      if close == |after| then [] else [after[..close]] + Tokens(after[close + 1..])
  }

  method Placeholders(message: string) returns (names: seq<string>)
    ensures names == Tokens(message)
  {
    hide Tokens, Find;
    names := [];
    var rest := message;
    var open := Find(rest, '{');
    while open < |rest|
      invariant open == Find(rest, '{')
      invariant Tokens(message) == names + Tokens(rest)
      decreases |rest|
    {
      var after := rest[open + 1..];
      var close := Find(after, '}');
      if close == |after| {
        break;
      }
      AppendToken(names, rest);
      names := names + [after[..close]];
      rest := after[close + 1..];
      open := Find(rest, '{');
    }
    NoMoreTokens(rest);
  }

  lemma NoMoreTokens(rest: string)
    requires var open := Find(rest, '{');
             open < |rest| ==> Find(rest[open + 1..], '}') == |rest| - open - 1
    ensures Tokens(rest) == []
  {
    hide Find;
  }

  /** Moving the first token of `rest` to the end of `names` changes nothing overall. */
  lemma {:induction false} AppendToken(names: seq<string>, rest: string)
    requires Find(rest, '{') < |rest|
    requires var after := rest[Find(rest, '{') + 1..]; Find(after, '}') < |after|
    ensures var after := rest[Find(rest, '{') + 1..];
            var close := Find(after, '}');
            names + Tokens(rest) == names + [after[..close]] + Tokens(after[close + 1..])
  {
    FirstToken(rest);
    hide Find, Tokens;
  }

  lemma {:induction false} FirstToken(rest: string)
    requires Find(rest, '{') < |rest|
    requires var after := rest[Find(rest, '{') + 1..]; Find(after, '}') < |after|
    ensures var after := rest[Find(rest, '{') + 1..];
            var close := Find(after, '}');
            Tokens(rest) == [after[..close]] + Tokens(after[close + 1..])
  {
    hide Find;
  }

  datatype LoadError =
    | DuplicateId(id: string)
    | BadDuration(id: string)
    | UnknownAfter(id: string, after: string)
    | UnknownPlaceholder(id: string, name: string)
    | NeedsCorrelate(id: string, name: string)

  predicate NeedsPrior(name: string) {
    name == "prior_path" || name == "delay"
  }

  function TokenFault(r: Rule, name: string): Option<LoadError> {
    if name !in PLACEHOLDERS then Some(UnknownPlaceholder(r.id, name))
    else if r.correlate.None? && NeedsPrior(name) then Some(NeedsCorrelate(r.id, name))
    else None
  }

  /** The first complaint about any of `names`. */
  function FirstTokenFault(r: Rule, names: seq<string>): (f: Option<LoadError>)
    ensures f.None? <==> forall name | name in names :: TokenFault(r, name).None?
  {
    if names == [] then None
    else if TokenFault(r, names[0]).Some? then TokenFault(r, names[0])
    else FirstTokenFault(r, names[1..])
  }

  predicate SeenBefore(rules: seq<Rule>, i: nat, id: string)
    requires i <= |rules|
  {
    exists j :: 0 <= j < i && rules[j].id == id
  }

  /** What is wrong with rule `i`, in the order in which the checks are made. */
  function RuleFault(rules: seq<Rule>, i: nat): Option<LoadError>
    requires i < |rules|
  {
    var r := rules[i];
    if SeenBefore(rules, i, r.id) then Some(DuplicateId(r.id))
    else if r.correlate.Some? && WindowOf(r.correlate.value).None? then Some(BadDuration(r.id))
    else if r.correlate.Some? && forall other | other in rules :: other.id != r.correlate.value.after
    then Some(UnknownAfter(r.id, r.correlate.value.after))
    else FirstTokenFault(r, Tokens(r.message))
  }

  /** A name that a rule's message may use: one of the nine, and the last two only with a correlation. */
  predicate MayUse(r: Rule, name: string) {
    || name in ["path", "basename", "argv", "uid", "dst_ip", "dst_port", "actor"]
    || (r.correlate.Some? && name in ["prior_path", "delay"])
  }

  ghost predicate FirstMisused(r: Rule, name: string) {
    exists n :: 0 <= n < |Tokens(r.message)| && Tokens(r.message)[n] == name && !MayUse(r, name)
                && forall m | 0 <= m < n :: MayUse(r, Tokens(r.message)[m])
  }

  /** The complaint `e` is true of rule `i`, and no complaint that takes precedence is. */
  ghost predicate IsFault(rules: seq<Rule>, i: nat, e: LoadError)
    requires i < |rules|
  {
    var r := rules[i];
    var duplicate := exists j :: 0 <= j < i && rules[j].id == r.id;
    var badDuration := r.correlate.Some? && WindowOf(r.correlate.value).None?;
    var badTarget := r.correlate.Some? && forall j | 0 <= j < |rules| :: rules[j].id != r.correlate.value.after;
    match e
    case DuplicateId(id) => id == r.id && duplicate
    case BadDuration(id) => id == r.id && !duplicate && badDuration
    case UnknownAfter(id, after) => id == r.id && !duplicate && !badDuration && badTarget && after == r.correlate.value.after
    case UnknownPlaceholder(id, name) =>
      && id == r.id && !duplicate && !badDuration && !badTarget && FirstMisused(r, name)
      && name !in ["prior_path", "delay"]
    case NeedsCorrelate(id, name) =>
      && id == r.id && !duplicate && !badDuration && !badTarget && FirstMisused(r, name)
      && name in ["prior_path", "delay"]
  }

  lemma TokenFaultMeans(r: Rule, name: string)
    ensures TokenFault(r, name).None? <==> MayUse(r, name)
    ensures TokenFault(r, name).Some? ==>
              TokenFault(r, name).value == if name in ["prior_path", "delay"] then NeedsCorrelate(r.id, name)
                                           else UnknownPlaceholder(r.id, name)
  {
  }

  /** The first complaint about a list of names is about the first one that may not be used. */
  lemma {:induction false} FirstTokenFaultMeans(r: Rule, names: seq<string>)
    ensures FirstTokenFault(r, names).Some? ==>
              exists n :: 0 <= n < |names| && !MayUse(r, names[n]) && FirstTokenFault(r, names) == TokenFault(r, names[n])
                          && forall m | 0 <= m < n :: MayUse(r, names[m])
  {
    hide MayUse, TokenFault;
    if names != [] {
      TokenFaultMeans(r, names[0]);
      FirstTokenFaultMeans(r, names[1..]);
      if TokenFault(r, names[0]).None? && FirstTokenFault(r, names[1..]).Some? {
        var n :| 0 <= n < |names[1..]| && !MayUse(r, names[1..][n])
                 && FirstTokenFault(r, names[1..]) == TokenFault(r, names[1..][n])
                 && forall m | 0 <= m < n :: MayUse(r, names[1..][m]);
        assert names[n + 1] == names[1..][n];
        assert forall m | 1 <= m < n + 1 :: names[m] == names[1..][m - 1];
      }
    }
  }

  lemma OnlyOneMisused(r: Rule, a: string, b: string)
    requires FirstMisused(r, a) && FirstMisused(r, b)
    ensures a == b
  {
    hide Tokens, MayUse;
  }

  /** The first complaint about the message is about its first misused name, if there is one. */
  lemma {:induction false} FirstTokenFaultIs(r: Rule, e: LoadError)
    ensures FirstTokenFault(r, Tokens(r.message)) == Some(e) <==>
            match e
            case UnknownPlaceholder(id, name) => id == r.id && FirstMisused(r, name) && name !in ["prior_path", "delay"]
            case NeedsCorrelate(id, name) => id == r.id && FirstMisused(r, name) && name in ["prior_path", "delay"]
            case _ => false
  {
    hide Tokens, TokenFault, MayUse;
    FirstTokenFaultMeans(r, Tokens(r.message));
    forall name
      ensures TokenFault(r, name).None? <==> MayUse(r, name)
      ensures TokenFault(r, name).Some? ==>
                TokenFault(r, name).value == if name in ["prior_path", "delay"] then NeedsCorrelate(r.id, name)
                                             else UnknownPlaceholder(r.id, name)
    {
      TokenFaultMeans(r, name);
    }
    forall a, b | FirstMisused(r, a) && FirstMisused(r, b) ensures a == b { OnlyOneMisused(r, a, b); }
  }

  /** What loading complains about is so, and it complains about whatever is wrong, in the order of the checks. */
  lemma {:induction false} FaultMeans(rules: seq<Rule>, i: nat, e: LoadError)
    requires i < |rules|
    ensures RuleFault(rules, i) == Some(e) <==> IsFault(rules, i, e)
  {
    hide Tokens, WindowOf, FirstTokenFault, FirstMisused;
    FirstTokenFaultIs(rules[i], e);
  }

  /** The rules that loading promises to let through. */
  ghost predicate Accepted(rules: seq<Rule>) {
    && (forall i, j | 0 <= i < j < |rules| :: rules[i].id != rules[j].id)
    && (forall r | r in rules && r.correlate.Some? ::
          WindowOf(r.correlate.value).Some? && exists other :: other in rules && other.id == r.correlate.value.after)
    && (forall r, name | r in rules && name in Tokens(r.message) ::
          name in PLACEHOLDERS && (NeedsPrior(name) ==> r.correlate.Some?))
  }

  /** What acceptance asks of one rule. */
  ghost predicate Acceptable(rules: seq<Rule>, i: nat)
    requires i < |rules|
  {
    var r := rules[i];
    && (forall j | 0 <= j < i :: rules[j].id != r.id)
    && (r.correlate.Some? ==>
          WindowOf(r.correlate.value).Some? && exists other :: other in rules && other.id == r.correlate.value.after)
    && (forall name | name in Tokens(r.message) :: name in PLACEHOLDERS && (NeedsPrior(name) ==> r.correlate.Some?))
  }

  lemma FaultlessIffAcceptable(rules: seq<Rule>, i: nat)
    requires i < |rules|
    ensures RuleFault(rules, i).None? <==> Acceptable(rules, i)
  {
    hide WindowOf, Tokens, NeedsPrior;
    var r := rules[i];
    forall name | name in Tokens(r.message)
      ensures TokenFault(r, name).None? <==> name in PLACEHOLDERS && (NeedsPrior(name) ==> r.correlate.Some?)
    {
    }
  }

  lemma AcceptedIffAllAcceptable(rules: seq<Rule>)
    ensures Accepted(rules) <==> forall i | 0 <= i < |rules| :: Acceptable(rules, i)
  {
    hide WindowOf, Tokens, NeedsPrior;
    if forall i | 0 <= i < |rules| :: Acceptable(rules, i) {
      forall i, j | 0 <= i < j < |rules|
        ensures rules[i].id != rules[j].id
      {
        assert Acceptable(rules, j);
      }
      forall r | r in rules
        ensures exists i :: 0 <= i < |rules| && rules[i] == r && Acceptable(rules, i)
      {
        var i :| 0 <= i < |rules| && rules[i] == r;
      }
    }
  }

  lemma AcceptedIffFaultless(rules: seq<Rule>)
    ensures Accepted(rules) <==> forall i | 0 <= i < |rules| :: RuleFault(rules, i).None?
  {
    hide RuleFault, Acceptable, Accepted;
    AcceptedIffAllAcceptable(rules);
    forall i | 0 <= i < |rules|
      ensures RuleFault(rules, i).None? <==> Acceptable(rules, i)
    {
      FaultlessIffAcceptable(rules, i);
    }
  }

  method CheckTokens(r: Rule) returns (fault: Option<LoadError>)
    ensures fault == FirstTokenFault(r, Tokens(r.message))
  {
    var names := Placeholders(r.message);
    for i := 0 to |names|
      invariant FirstTokenFault(r, names) == FirstTokenFault(r, names[i..])
    {
      assert names[i..][0] == names[i] && names[i..][1..] == names[i + 1..];
      if names[i] !in PLACEHOLDERS {
        return Some(UnknownPlaceholder(r.id, names[i]));
      }
      if r.correlate.None? && (names[i] == "prior_path" || names[i] == "delay") {
        return Some(NeedsCorrelate(r.id, names[i]));
      }
    }
    return None;
  }

  method CheckRule(parsed: seq<Rule>, i: nat) returns (fault: Option<LoadError>)
    requires i < |parsed| && !SeenBefore(parsed, i, parsed[i].id)
    ensures fault == RuleFault(parsed, i)
  {
    var rule := parsed[i];
    if rule.correlate.Some? {
      var c := rule.correlate.value;
      if WindowOf(c).None? {
        return Some(BadDuration(rule.id));
      }
      if !(exists other :: other in parsed && other.id == c.after) {
        return Some(UnknownAfter(rule.id, c.after));
      }
    }
    fault := CheckTokens(rule);
  }

  /** The first fault of the first faulty rule. */
  method FirstFault(parsed: seq<Rule>) returns (fault: Option<LoadError>)
    ensures fault.None? ==> forall i | 0 <= i < |parsed| :: RuleFault(parsed, i).None?
    ensures fault.Some? ==> exists i | 0 <= i < |parsed| :: RuleFault(parsed, i) == fault
                                                            && forall j | 0 <= j < i :: RuleFault(parsed, j).None?
  {
    var seen: set<string> := {};
    for i := 0 to |parsed|
      invariant forall id :: id in seen <==> SeenBefore(parsed, i, id)
      invariant forall j | 0 <= j < i :: RuleFault(parsed, j).None?
    {
      if parsed[i].id in seen {
        fault := Some(DuplicateId(parsed[i].id));
        assert RuleFault(parsed, i) == fault;
        return;
      }
      seen := seen + {parsed[i].id};
      fault := CheckRule(parsed, i);
      if fault.Some? {
        return;
      }
    }
    fault := None;
  }

  /** Lets a rule file through exactly when it is acceptable, and otherwise names the first fault. */
  method Load(parsed: seq<Rule>) returns (r: Result<seq<Rule>, LoadError>)
    ensures r.Ok? <==> Accepted(parsed)
    ensures r.Ok? ==> r.value == parsed
    ensures r.Err? ==> exists i | 0 <= i < |parsed| :: IsFault(parsed, i, r.error)
                                                       && forall j, e | 0 <= j < i :: !IsFault(parsed, j, e)
  {
    hide RuleFault, IsFault, Accepted;
    AcceptedIffFaultless(parsed);
    var fault := FirstFault(parsed);
    forall i, e | 0 <= i < |parsed| ensures RuleFault(parsed, i) == Some(e) <==> IsFault(parsed, i, e) {
      FaultMeans(parsed, i, e);
    }
    return if fault.Some? then Err(fault.value) else Ok(parsed);
  }
}
