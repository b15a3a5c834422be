/** Filling in an alert's message: a chain of textual replacements, and the substitution it amounts to. */
module Rendering {
  import opened Wrappers
  import opened Collections
  import opened Rules

  type Subst = seq<(string, string)>

  function Braced(name: string): string {
    "{" + name + "}"
  }

  /** Every non-overlapping occurrence of `pattern`, from the left, becomes `value`. */
  function Replace(s: string, pattern: string, value: string): string
    requires pattern != ""
  {
    if s == "" then ""
    else if pattern <= s then value + Replace(s[|pattern|..], pattern, value)
    else [s[0]] + Replace(s[1..], pattern, value)
  }

  /** The replacements one after the other, each on the outcome of the one before. */
  function ReplaceAll(s: string, subst: Subst): string
    decreases |subst|
  {
    if subst == [] then s else ReplaceAll(Replace(s, Braced(subst[0].0), subst[0].1), subst[1..])
  }

  /** The value a token gets: its replacement, or itself in braces. */
  function Filled(name: string, env: map<string, string>): string {
    if name in env then env[name] else Braced(name)
  }

  /** All tokens at once, in one pass over the message. What is put in is never looked at again. */
  function Substitute(s: string, env: map<string, string>): string
    decreases |s|
  {
    var open := Find(s, '{');
    if open == |s| then s
    else
      var after := s[open + 1..];
      var close := Find(after, '}');
      if close == |after| then s
      else
        var name := after[..close];
        s[..open] + Filled(name, env) + Substitute(after[close + 1..], env)
  }

  function EnvOf(subst: Subst): map<string, string> {
    if subst == [] then map[] else EnvOf(subst[1..])[subst[0].0 := subst[0].1]
  }

  predicate Plain(s: string) {
    '{' !in s
  }

  /** No token of the message has an opening brace in it. Known placeholder names have none. */
  predicate PlainTokens(s: string) {
    forall name | name in Tokens(s) :: Plain(name)
  }

  // ---------------------------------------------------------------- one token at a time

  /** A message that starts with some text and then a token. */
  lemma TokenSplit(pre: string, name: string, rest: string, env: map<string, string>)
    requires Plain(pre) && '}' !in name
    ensures var s := pre + Braced(name) + rest;
            && Tokens(s) == [name] + Tokens(rest)
            && Substitute(s, env) == pre + Filled(name, env) + Substitute(rest, env)
  {
    var s := pre + Braced(name) + rest;
    assert s == pre + (Braced(name) + rest);
    FindInConcat(pre, Braced(name) + rest, '{');
    assert Find(Braced(name) + rest, '{') == 0;
    var after := s[|pre| + 1..];
    assert after == name + ("}" + rest);
    FindInConcat(name, "}" + rest, '}');
    assert Find("}" + rest, '}') == 0;
    hide Find;
    assert after[..|name|] == name && after[|name| + 1..] == rest && s[..|pre|] == pre;
  }

  lemma SplitAt(s: string, i: nat)
    requires i < |s|
    ensures s == s[..i] + [s[i]] + s[i + 1..]
  {
  }

  lemma Reassociate(pre: string, name: string, rest: string)
    ensures pre + ['{'] + (name + ['}'] + rest) == pre + Braced(name) + rest
  {
  }

  /** Every message with a token is of that shape. */
  lemma SplitToken(s: string) returns (pre: string, name: string, rest: string)
    requires Tokens(s) != []
    ensures s == pre + Braced(name) + rest && Plain(pre) && '}' !in name && |rest| < |s|
  {
    var open := Find(s, '{');
    var after := s[open + 1..];
    var close := Find(after, '}');
    pre, name, rest := s[..open], after[..close], after[close + 1..];
    SplitAt(s, open);
    SplitAt(after, close);
    Reassociate(pre, name, rest);
  }

  lemma {:induction false} PlainPrefixStays(lit: string, s: string, k: string, v: string)
    requires Plain(lit)
    ensures Replace(lit + s, Braced(k), v) == lit + Replace(s, Braced(k), v)
  {
    if lit == "" {
      assert lit + s == s;
    } else {
      PlainPrefixStays(lit[1..], s, k, v);
      assert (lit + s)[0] == lit[0] != Braced(k)[0];
      assert (lit + s)[1..] == lit[1..] + s;
    }
  }

  lemma TokenlessSubstitutes(lit: string, s: string, env: map<string, string>)
    requires Plain(lit) && Tokens(s) == []
    ensures Substitute(lit + s, env) == lit + s && Tokens(lit + s) == [] && Substitute(s, env) == s
  {
    FindInConcat(lit, s, '{');
    var open := Find(s, '{');
    if open < |s| {
      assert (lit + s)[|lit| + open + 1..] == s[open + 1..];
    }
  }

  lemma PlainTextSubstitutes(lit: string, s: string, env: map<string, string>)
    requires Plain(lit)
    ensures Substitute(lit + s, env) == lit + Substitute(s, env) && Tokens(lit + s) == Tokens(s)
  {
    if Tokens(s) == [] {
      TokenlessSubstitutes(lit, s, env);
    } else {
      var pre, name, rest := SplitToken(s);
      TokenSplit(pre, name, rest, env);
      TokenSplit(lit + pre, name, rest, env);
      Regroup(lit, pre, Braced(name), rest);
      Regroup(lit, pre, Filled(name, env), Substitute(rest, env));
    }
  }

  lemma ReplaceToken(pre: string, name: string, rest: string, k: string, v: string)
    requires Plain(pre) && Plain(name) && '}' !in name && '}' !in k
    ensures Replace(pre + Braced(name) + rest, Braced(k), v)
         == pre + (if name == k then v else Braced(name)) + Replace(rest, Braced(k), v)
  {
    var s := Braced(name) + rest;
    assert pre + Braced(name) + rest == pre + s;
    PlainPrefixStays(pre, s, k, v);
    if name == k {
      assert s[|Braced(k)|..] == rest;
    } else {
      assert !(Braced(k) <= s) by {
        if Braced(k) <= s { SamePrefixSameName(name, rest, k); }
      }
      assert s[1..] == (name + "}") + rest;
      PlainPrefixStays(name + "}", rest, k, v);
      assert Braced(name) == [s[0]] + (name + "}");
    }
  }

  lemma SamePrefixSameName(name: string, rest: string, k: string)
    requires '}' !in name && '}' !in k && Braced(k) <= Braced(name) + rest
    ensures k == name
  {
    hide Find;
    var s := (Braced(name) + rest)[1..];
    assert s == name + ['}'] + rest;
    assert s[..|k| + 1] == Braced(k)[1..] == k + ['}'];
    assert s == k + ['}'] + s[|k| + 1..];
    FindAfterWord(name, '}', rest);
    FindAfterWord(k, '}', s[|k| + 1..]);
    assert k == s[..|k|] && name == s[..|name|];
  }

  lemma {:induction false} TokenlessStays(s: string, k: string, v: string)
    requires Tokens(s) == [] && '}' !in k
    ensures Replace(s, Braced(k), v) == s
    decreases |s|
  {
    var open := Find(s, '{');
    if open == |s| {
      PlainPrefixStays(s, "", k, v);
      assert s + "" == s;
    } else {
      var after := s[open + 1..];
      assert '}' !in after;
      assert s == s[..open] + s[open..];
      PlainPrefixStays(s[..open], s[open..], k, v);
      NoCloseStays(s[open..], k, v);
    }
  }

  lemma {:induction false} NoCloseStays(s: string, k: string, v: string)
    requires '}' !in s
    ensures Replace(s, Braced(k), v) == s
  {
    if s != "" {
      assert Braced(k)[|k| + 1] == '}';
      NoCloseStays(s[1..], k, v);
    }
  }

  // ---------------------------------------------------------------- the chain is one substitution

  /** Replacing `{n}` finds nothing in `v`, whatever follows it: no `{n}` lies in `v`, and no end of `v` begins one. */
  predicate Inert(v: string, n: string) {
    forall p | 0 <= p < |v| :: !(Braced(n) <= v[p..]) && !(v[p..] <= Braced(n))
  }

  lemma PlainIsInert(v: string, n: string)
    requires Plain(v)
    ensures Inert(v, n)
  {
    assert forall p | 0 <= p < |v| :: v[p..][0] != '{';
  }

  lemma {:induction false} NothingToReplaceAtOnce(v: string, rest: string, n: string)
    requires Inert(v, n) && v != ""
    ensures !(Braced(n) <= v + rest)
  {
    assert v[0..] == v;
    if Braced(n) <= v + rest { PrefixOfConcat(Braced(n), v, rest); }
  }

  lemma {:induction false} InertTail(v: string, n: string)
    requires Inert(v, n) && v != ""
    ensures Inert(v[1..], n)
  {
    assert forall p | 0 <= p < |v| - 1 :: v[1..][p..] == v[p + 1..];
  }

  lemma {:induction false} InertStays(v: string, rest: string, n: string, w: string)
    requires Inert(v, n)
    ensures Replace(v + rest, Braced(n), w) == v + Replace(rest, Braced(n), w)
  {
    hide Inert;
    if v == "" {
      assert v + rest == rest;
    } else {
      NothingToReplaceAtOnce(v, rest, n);
      InertTail(v, n);
      InertStays(v[1..], rest, n, w);
      assert (v + rest)[1..] == v[1..] + rest;
    }
  }

  lemma PrefixOfConcat(pattern: string, v: string, rest: string)
    requires pattern <= v + rest
    ensures pattern <= v || v <= pattern
  {
    if |pattern| <= |v| {
      assert (v + rest)[..|pattern|] == v[..|pattern|];
    } else {
      assert v == (v + rest)[..|v|] == pattern[..|v|];
    }
  }

  /** Replacing one more token after others were filled in is filling them all in: the replacement meets the
      tokens of the message only, not what was put in for the others. */
  lemma {:induction false} ReplaceOneMore(s: string, env: map<string, string>, k: string, v: string)
    requires PlainTokens(s) && '}' !in k && k !in env && forall n | n in env :: Inert(env[n], k)
    ensures Replace(Substitute(s, env), Braced(k), v) == Substitute(s, env[k := v])
    decreases |s|
  {
    if Tokens(s) == [] {
      TokenlessSubstitutes("", s, env);
      TokenlessSubstitutes("", s, env[k := v]);
      TokenlessStays(s, k, v);
    } else {
      var pre, name, rest := SplitToken(s);
      TokenSplit(pre, name, rest, env);
      TokenSplit(pre, name, rest, env[k := v]);
      assert name in Tokens(s) && PlainTokens(rest);
      ReplaceOneMore(rest, env, k, v);
      ReplaceFilled(pre, name, Substitute(rest, env), env, k, v);
    }
  }

  lemma ReplaceFilled(pre: string, name: string, rest: string, env: map<string, string>, k: string, v: string)
    requires Plain(pre) && Plain(name) && '}' !in name && '}' !in k && k !in env && (name in env ==> Inert(env[name], k))
    ensures Replace(pre + Filled(name, env) + rest, Braced(k), v)
         == pre + Filled(name, env[k := v]) + Replace(rest, Braced(k), v)
  {
    if name in env {
      assert pre + env[name] + rest == pre + (env[name] + rest);
      PlainPrefixStays(pre, env[name] + rest, k, v);
      InertStays(env[name], rest, k, v);
    } else {
      ReplaceToken(pre, name, rest, k, v);
    }
  }

  lemma {:induction false} EmptySubstitution(s: string)
    ensures Substitute(s, map[]) == s
    decreases |s|
  {
    if Tokens(s) != [] {
      var pre, name, rest := SplitToken(s);
      TokenSplit(pre, name, rest, map[]);
      EmptySubstitution(rest);
    }
  }

  predicate SoundNames(subst: Subst) {
    && (forall i | 0 <= i < |subst| :: '}' !in subst[i].0)
    && (forall i, j | 0 <= i < j < |subst| :: subst[i].0 != subst[j].0)
  }

  /** Every value is inert to all replacements that come after it. */
  predicate InertValues(subst: Subst) {
    forall i, j | 0 <= i < j < |subst| :: Inert(subst[i].1, subst[j].0)
  }

  predicate PlainValues(subst: Subst) {
    forall i | 0 <= i < |subst| :: Plain(subst[i].1)
  }

  lemma PlainValuesAreInert(subst: Subst)
    requires PlainValues(subst)
    ensures InertValues(subst)
  {
    forall i, j | 0 <= i < j < |subst|
      ensures Inert(subst[i].1, subst[j].0)
    {
      PlainIsInert(subst[i].1, subst[j].0);
    }
  }

  lemma {:induction false} EnvHasOnly(subst: Subst)
    ensures forall k :: k in EnvOf(subst) <==> exists i :: 0 <= i < |subst| && subst[i].0 == k
    ensures forall k | k in EnvOf(subst) :: exists i :: 0 <= i < |subst| && subst[i] == (k, EnvOf(subst)[k])
  {
    if subst != [] {
      EnvHasOnly(subst[1..]);
      assert subst == [subst[0]] + subst[1..];
    }
  }

  /** What is still to be replaced after the first replacement fits what has been filled in. */
  predicate Fits(env: map<string, string>, subst: Subst) {
    && SoundNames(subst) && InertValues(subst)
    && forall j | 0 <= j < |subst| :: subst[j].0 !in env && forall n | n in env :: Inert(env[n], subst[j].0)
  }

  lemma FitsOn(env: map<string, string>, subst: Subst)
    requires subst != [] && Fits(env, subst)
    ensures Fits(env[subst[0].0 := subst[0].1], subst[1..])
  {
    hide Inert;
    assert forall j | 0 <= j < |subst[1..]| :: subst[1..][j] == subst[j + 1];
  }

  lemma EnvMovesOn(env: map<string, string>, subst: Subst)
    requires subst != [] && SoundNames(subst)
    ensures env[subst[0].0 := subst[0].1] + EnvOf(subst[1..]) == env + EnvOf(subst)
  {
    EnvHasOnly(subst[1..]);
  }

  lemma {:induction false} ChainFrom(s: string, env: map<string, string>, subst: Subst)
    requires PlainTokens(s) && Fits(env, subst)
    ensures ReplaceAll(Substitute(s, env), subst) == Substitute(s, env + EnvOf(subst))
    decreases |subst|
  {
    hide Inert, Substitute, PlainTokens;
    if subst == [] {
      assert env + EnvOf(subst) == env;
    } else {
      ReplaceOneMore(s, env, subst[0].0, subst[0].1);
      FitsOn(env, subst);
      EnvMovesOn(env, subst);
      ChainFrom(s, env[subst[0].0 := subst[0].1], subst[1..]);
    }
  }

  /** When every value is inert to the replacements after it, the replacements one after another are the
      substitution of all tokens at once, for every message whose tokens are plain. */
  lemma ChainIsSubstitution(s: string, subst: Subst)
    requires PlainTokens(s) && SoundNames(subst) && InertValues(subst)
    ensures ReplaceAll(s, subst) == Substitute(s, EnvOf(subst))
  {
    EmptySubstitution(s);
    ChainFrom(s, map[], subst);
    assert map[] + EnvOf(subst) == EnvOf(subst);
  }

  // ---------------------------------------------------------------- and only then

  lemma {:induction false} ErasingShrinks(s: string, n: string)
    ensures |Replace(s, Braced(n), "")| <= |s|
    ensures (exists p | 0 <= p < |s| :: Braced(n) <= s[p..]) ==> |Replace(s, Braced(n), "")| < |s|
  {
    if s != "" {
      assert s[0..] == s;
      if Braced(n) <= s {
        ErasingShrinks(s[|Braced(n)|..], n);
      } else {
        ErasingShrinks(s[1..], n);
        assert forall p | 1 <= p < |s| :: s[1..][p - 1..] == s[p..];
      }
    }
  }

  /** Tells the chain from the substitution for a value that is not inert: completes the `{n}` that `v` has or
      begins, and then erases it. */
  lemma TellingMessage(k: string, n: string, v: string) returns (s: string)
    requires Plain(k) && Plain(n) && '}' !in k && '}' !in n && k != n && !Inert(v, n)
    ensures PlainTokens(s) && ReplaceAll(s, [(k, v), (n, "")]) != Substitute(s, map[k := v, n := ""])
  {
    hide Replace, ReplaceAll, Substitute, Tokens, PlainTokens;
    var p :| 0 <= p < |v| && (Braced(n) <= v[p..] || v[p..] <= Braced(n));
    var tail := if Braced(n) <= v[p..] then "" else Braced(n)[|v| - p..];
    assert Plain(tail);
    Completed(v, n, p, tail);
    TellsApart(k, n, v, tail, p);
    s := Braced(k) + tail;
  }

  lemma TellsApart(k: string, n: string, v: string, tail: string, p: nat)
    requires Plain(k) && '}' !in k && '}' !in n && k != n && Plain(tail)
    requires p < |v + tail| && Braced(n) <= (v + tail)[p..]
    ensures var s := Braced(k) + tail;
            PlainTokens(s) && ReplaceAll(s, [(k, v), (n, "")]) != Substitute(s, map[k := v, n := ""])
  {
    hide Replace, ReplaceAll, Substitute, Tokens, PlainTokens, Plain;
    var s := Braced(k) + tail;
    LoneTokenThen(k, tail, map[k := v, n := ""]);
    LoneTokenReplaced(k, tail, v);
    ErasingShrinks(v + tail, n);
    ReplaceAllTwo(s, k, v, n, "");
  }

  lemma LoneTokenReplaced(k: string, tail: string, v: string)
    requires Plain(k) && '}' !in k && Plain(tail)
    ensures Replace(Braced(k) + tail, Braced(k), v) == v + tail
  {
    hide Braced, Replace, Plain;
    ReplaceToken("", k, tail, k, v);
    PlainStays(tail, k, v);
    assert "" + Braced(k) + tail == Braced(k) + tail && "" + v + tail == v + tail;
  }

  lemma Completed(v: string, n: string, p: nat, tail: string)
    requires p < |v|
    requires (Braced(n) <= v[p..] && tail == "") || (v[p..] <= Braced(n) && tail == Braced(n)[|v| - p..])
    ensures Braced(n) <= (v + tail)[p..]
  {
    assert (v + tail)[p..] == v[p..] + tail;
  }

  lemma PlainTextStays(s: string, env: map<string, string>)
    requires Plain(s)
    ensures Tokens(s) == [] && Substitute(s, env) == s
  {
  }

  lemma LoneTokenThen(k: string, tail: string, env: map<string, string>)
    requires Plain(k) && '}' !in k && Plain(tail) && k in env
    ensures var s := Braced(k) + tail; PlainTokens(s) && Substitute(s, env) == env[k] + tail
  {
    hide Braced, Substitute, Tokens;
    TokenSplit("", k, tail, env);
    PlainTextStays(tail, env);
    assert "" + Braced(k) + tail == Braced(k) + tail && "" + env[k] + tail == env[k] + tail;
  }

  lemma ReplaceAllTwo(s: string, k: string, v: string, n: string, w: string)
    ensures ReplaceAll(s, [(k, v), (n, w)]) == Replace(Replace(s, Braced(k), v), Braced(n), w)
  {
    assert [(k, v), (n, w)] == [(k, v)] + [(n, w)];
    ReplaceAllConcat(s, [(k, v)], [(n, w)]);
    ReplaceAllOne(s, k, v);
    ReplaceAllOne(Replace(s, Braced(k), v), n, w);
  }

  lemma TwoChain(s: string, k: string, n: string, v: string, w: string)
    requires PlainTokens(s) && '}' !in k && '}' !in n && k != n && Inert(v, n)
    ensures ReplaceAll(s, [(k, v), (n, w)]) == Substitute(s, map[k := v, n := w])
  {
    var subst := [(k, v), (n, w)];
    assert subst[1..] == [(n, w)] && [(n, w)][1..] == [];
    assert EnvOf([(n, w)]) == map[n := w];
    assert EnvOf(subst) == map[n := w][k := v] == map[k := v, n := w];
    ChainIsSubstitution(s, subst);
  }

  /** Inert is exactly what it takes: a value is inert to a later replacement if and only if no message and no
      later value tell the chain from the substitution. */
  lemma InertIffUnrescanned(k: string, n: string, v: string)
    requires Plain(k) && Plain(n) && '}' !in k && '}' !in n && k != n
    ensures Inert(v, n) <==>
            forall s, w | PlainTokens(s) :: ReplaceAll(s, [(k, v), (n, w)]) == Substitute(s, map[k := v, n := w])
  {
    if Inert(v, n) {
      forall s, w | PlainTokens(s)
        ensures ReplaceAll(s, [(k, v), (n, w)]) == Substitute(s, map[k := v, n := w])
      {
        TwoChain(s, k, n, v, w);
      }
    } else {
      var s := TellingMessage(k, n, v);
    }
  }

  /** When every token has a value, and values are plain, no token is left at all. */
  lemma {:induction false} NoTokenLeft(s: string, env: map<string, string>)
    requires forall name | name in Tokens(s) :: name in env && Plain(env[name])
    ensures Tokens(Substitute(s, env)) == []
    decreases |s|
  {
    if Tokens(s) != [] {
      var pre, name, rest := SplitToken(s);
      TokenSplit(pre, name, rest, env);
      NoTokenLeft(rest, env);
      PlainTextSubstitutes(pre + env[name], Substitute(rest, env), env);
    }
  }

  /** A text without tokens has nothing between braces anywhere. */
  lemma TokenlessHasNoBraces(s: string, name: string)
    ensures IsSubstring(Braced(name), s) ==> Tokens(s) != []
  {
    if i :| 0 <= i <= |s| && OccursAt(Braced(name), s, i) {
      var found := s[i..i + |name| + 2];
      assert found == Braced(name) && s[i] == found[0] && s[i + |name| + 1] == found[|name| + 1];
      FindAtMost(s, '{', i);
      var open := Find(s, '{');
      var after := s[open + 1..];
      FindAtMost(after, '}', i + |name| - open);
    }
  }

  // ---------------------------------------------------------------- messages of rules

  function FactSubst(facts: EventFacts): Subst {
    [("path", facts.path), ("basename", BasenameOf(facts.path)), ("argv", Joined(facts.argv, ' ')),
     ("uid", Decimal(facts.uid)), ("dst_ip", facts.dstIp), ("dst_port", Decimal(facts.dstPort))]
  }

  /** What the engine adds: the actor always, the earlier path and the delay for a correlated rule. */
  function ExtraSubst(actor: string, prior: Option<(string, string)>): Subst {
    [("actor", actor)] + if prior.Some? then [("prior_path", prior.value.0), ("delay", prior.value.1)] else []
  }

  function Rendered(r: Rule, facts: EventFacts, extra: Subst): string {
    ReplaceAll(r.message, FactSubst(facts) + extra)
  }

  lemma {:induction false} ReplaceAllConcat(s: string, a: Subst, b: Subst)
    ensures ReplaceAll(s, a + b) == ReplaceAll(ReplaceAll(s, a), b)
    decreases |a|
  {
    if a == [] {
      assert a + b == b;
    } else {
      assert (a + b)[1..] == a[1..] + b;
      ReplaceAllConcat(Replace(s, Braced(a[0].0), a[0].1), a[1..], b);
    }
  }

  lemma ReplaceAllNone(s: string)
    ensures ReplaceAll(s, []) == s
  {
  }

  lemma ReplaceAllOne(s: string, k: string, v: string)
    ensures ReplaceAll(s, [(k, v)]) == Replace(s, Braced(k), v)
  {
  }

  method RenderFacts(m: string, facts: EventFacts) returns (out: string)
    ensures out == ReplaceAll(m, FactSubst(facts))
  {
    out := Replace(m, Braced("path"), facts.path);
    out := Replace(out, Braced("basename"), BasenameOf(facts.path));
    out := Replace(out, Braced("argv"), Joined(facts.argv, ' '));
    out := Replace(out, Braced("uid"), Decimal(facts.uid));
    out := Replace(out, Braced("dst_ip"), facts.dstIp);
    out := Replace(out, Braced("dst_port"), Decimal(facts.dstPort));
    FactReplacements(m, facts);
  }

  method Render(r: Rule, facts: EventFacts, extra: Subst) returns (out: string)
    ensures out == Rendered(r, facts, extra)
  {
    hide Replace, ReplaceAll, FactSubst;
    out := RenderFacts(r.message, facts);
    ghost var base := out;
    ReplaceAllNone(base);
    for i := 0 to |extra|
      invariant out == ReplaceAll(base, extra[..i])
    {
      var (k, v) := extra[i];
      assert extra[..i + 1] == extra[..i] + [extra[i]];
      ReplaceAllConcat(base, extra[..i], [(k, v)]);
      ReplaceAllOne(out, k, v);
      out := Replace(out, Braced(k), v);
    }
    assert extra[..|extra|] == extra;
    ReplaceAllConcat(r.message, FactSubst(facts), extra);
  }

  lemma FactReplacements(m: string, facts: EventFacts)
    ensures ReplaceAll(m, FactSubst(facts))
         == Replace(Replace(Replace(Replace(Replace(Replace(m, Braced("path"), facts.path),
              Braced("basename"), BasenameOf(facts.path)), Braced("argv"), Joined(facts.argv, ' ')),
              Braced("uid"), Decimal(facts.uid)), Braced("dst_ip"), facts.dstIp),
              Braced("dst_port"), Decimal(facts.dstPort))
  {
    var s := FactSubst(facts);
    assert s == [s[0]] + [s[1]] + [s[2]] + [s[3]] + [s[4]] + [s[5]];
    ReplaceAllConcat(m, [s[0]] + [s[1]] + [s[2]] + [s[3]] + [s[4]], [s[5]]);
    ReplaceAllConcat(m, [s[0]] + [s[1]] + [s[2]] + [s[3]], [s[4]]);
    ReplaceAllConcat(m, [s[0]] + [s[1]] + [s[2]], [s[3]]);
    ReplaceAllConcat(m, [s[0]] + [s[1]], [s[2]]);
    ReplaceAllConcat(m, [s[0]], [s[1]]);
  }

  lemma FactNames(facts: EventFacts)
    ensures |FactSubst(facts)| == 6 && forall i | 0 <= i < 6 :: FactSubst(facts)[i].0 == PLACEHOLDERS[i]
  {
  }

  lemma ExtraNames(actor: string, prior: Option<(string, string)>)
    ensures |ExtraSubst(actor, prior)| == if prior.Some? then 3 else 1
    ensures forall i | 0 <= i < |ExtraSubst(actor, prior)| :: ExtraSubst(actor, prior)[i].0 == PLACEHOLDERS[i + 6]
  {
  }

  /** The engine's substitution lists the placeholders in order, the two prior ones only with a prior hit. */
  lemma EngineSubst(facts: EventFacts, actor: string, prior: Option<(string, string)>)
    ensures var subst := FactSubst(facts) + ExtraSubst(actor, prior);
            && |subst| == (if prior.Some? then 9 else 7)
            && (forall i | 0 <= i < |subst| :: subst[i].0 == PLACEHOLDERS[i])
            && SoundNames(subst)
  {
    FactNames(facts);
    ExtraNames(actor, prior);
    PlaceholdersAreDistinct();
    hide FactSubst, ExtraSubst;
  }

  /** Validation lets through only tokens for which the engine has a value: a rule that names a prior hit is
      correlated, and so has one when it fires. */
  lemma TokensHaveValues(rules: seq<Rule>, r: Rule, facts: EventFacts, actor: string, prior: Option<(string, string)>)
    requires Accepted(rules) && r in rules && (r.correlate.Some? ==> prior.Some?)
    ensures forall name | name in Tokens(r.message) ::
              Plain(name) && name in EnvOf(FactSubst(facts) + ExtraSubst(actor, prior))
  {
    var subst := FactSubst(facts) + ExtraSubst(actor, prior);
    EngineSubst(facts, actor, prior);
    PlaceholdersAreDistinct();
    EnvHasOnly(subst);
    hide FactSubst, ExtraSubst, Tokens, EnvOf;
    forall name | name in Tokens(r.message)
      ensures Plain(name) && name in EnvOf(subst)
    {
      assert name in PLACEHOLDERS;
      var n :| 0 <= n < 9 && PLACEHOLDERS[n] == name;
      assert n < |subst| && subst[n].0 == name;
    }
  }

  /** Every token of the rule's message has a value, and `message` is the one-pass substitution if the values are inert. */
  ghost predicate FilledIn(message: string, r: Rule, subst: Subst) {
    && (forall name | name in Tokens(r.message) :: name in EnvOf(subst))
    && (InertValues(subst) ==> message == Substitute(r.message, EnvOf(subst)))
  }

  /** A message that passed validation, rendered the way the engine does: every token has a value, the outcome
      is the one-pass substitution when the values are inert, and nothing in braces is left when they are plain. */
  lemma AcceptedMessageIsFilledIn(rules: seq<Rule>, r: Rule, facts: EventFacts, actor: string,
                                  prior: Option<(string, string)>)
    requires Accepted(rules) && r in rules && (r.correlate.Some? ==> prior.Some?)
    ensures var subst := FactSubst(facts) + ExtraSubst(actor, prior);
            var message := Rendered(r, facts, ExtraSubst(actor, prior));
            && FilledIn(message, r, subst)
            && (PlainValues(subst) ==> forall name :: !IsSubstring(Braced(name), message))
  {
    hide FactSubst, ExtraSubst, Tokens, EnvOf, Plain, Accepted, IsSubstring, Substitute, InertValues, PlainValues;
    var subst := FactSubst(facts) + ExtraSubst(actor, prior);
    EngineSubst(facts, actor, prior);
    TokensHaveValues(rules, r, facts, actor, prior);
    if PlainValues(subst) {
      PlainValuesAreInert(subst);
      PlainEnv(subst);
      NoTokenLeft(r.message, EnvOf(subst));
      forall name ensures !IsSubstring(Braced(name), Substitute(r.message, EnvOf(subst))) {
        TokenlessHasNoBraces(Substitute(r.message, EnvOf(subst)), name);
      }
    }
    if InertValues(subst) { ChainIsSubstitution(r.message, subst); }
  }

  lemma PlainEnv(subst: Subst)
    requires PlainValues(subst)
    ensures forall name | name in EnvOf(subst) :: Plain(EnvOf(subst)[name])
  {
    EnvHasOnly(subst);
  }

  lemma {:induction false} EnvAt(subst: Subst, i: nat)
    requires SoundNames(subst) && i < |subst|
    ensures subst[i].0 in EnvOf(subst) && EnvOf(subst)[subst[i].0] == subst[i].1
    decreases |subst|
  {
    if i > 0 {
      assert forall j | 0 <= j < |subst[1..]| :: subst[1..][j] == subst[j + 1];
      EnvAt(subst[1..], i - 1);
    }
  }

  /** What each placeholder stands for. The last two have a value only with a prior hit. */
  ghost predicate NamesFacts(env: map<string, string>, facts: EventFacts, actor: string, prior: Option<(string, string)>) {
    && env.Keys == {"path", "basename", "argv", "uid", "dst_ip", "dst_port", "actor"}
                   + (if prior.Some? then {"prior_path", "delay"} else {})
    && env["path"] == facts.path
    && IsBasename(facts.path, env["basename"])
    && env["argv"] == Joined(facts.argv, ' ')
    && IsNumeral(facts.uid, env["uid"])
    && env["dst_ip"] == facts.dstIp
    && IsNumeral(facts.dstPort, env["dst_port"])
    && env["actor"] == actor
    && (prior.Some? ==> env["prior_path"] == prior.value.0 && env["delay"] == prior.value.1)
  }

  ghost function Firsts(names: seq<string>, n: nat): set<string>
    requires n <= |names|
  {
    set name | name in names[..n]
  }

  /** The names of a substitution are those of its pairs. */
  lemma {:induction false} EnvKeys(subst: Subst, names: seq<string>)
    requires |subst| <= |names| && forall i | 0 <= i < |subst| :: subst[i].0 == names[i]
    ensures EnvOf(subst).Keys == Firsts(names, |subst|)
    decreases |subst|
  {
    if subst != [] {
      assert forall j | 0 <= j < |subst[1..]| :: subst[1..][j] == subst[j + 1] && names[1..][j] == names[j + 1];
      EnvKeys(subst[1..], names[1..]);
      assert names[..|subst|] == [names[0]] + names[1..][..|subst[1..]|];
    }
  }

  lemma FactValues(facts: EventFacts)
    ensures var s := FactSubst(facts);
            && s[0].1 == facts.path && IsBasename(facts.path, s[1].1) && s[2].1 == Joined(facts.argv, ' ')
            && IsNumeral(facts.uid, s[3].1) && s[4].1 == facts.dstIp && IsNumeral(facts.dstPort, s[5].1)
  {
    hide BasenameOf, Decimal, IsBasename, IsNumeral, Joined;
    OnlyBasename(facts.path, BasenameOf(facts.path));
    OnlyNumeral(facts.uid, Decimal(facts.uid));
    OnlyNumeral(facts.dstPort, Decimal(facts.dstPort));
  }

  lemma ExtraValues(actor: string, prior: Option<(string, string)>)
    ensures ExtraSubst(actor, prior)[0].1 == actor
    ensures prior.Some? ==> ExtraSubst(actor, prior)[1].1 == prior.value.0 && ExtraSubst(actor, prior)[2].1 == prior.value.1
  {
  }

  lemma PlaceholderNames()
    ensures Firsts(PLACEHOLDERS, 7) == {"path", "basename", "argv", "uid", "dst_ip", "dst_port", "actor"}
    ensures Firsts(PLACEHOLDERS, 9) == Firsts(PLACEHOLDERS, 7) + {"prior_path", "delay"}
  {
    var seven := ["path", "basename", "argv", "uid", "dst_ip", "dst_port", "actor"];
    assert PLACEHOLDERS[..7] == seven;
    assert PLACEHOLDERS[..9] == seven + ["prior_path", "delay"];
  }

  /** The values in the order of the placeholders. */
  ghost predicate ListsFacts(subst: Subst, facts: EventFacts, actor: string, prior: Option<(string, string)>) {
    && |subst| == (if prior.Some? then 9 else 7)
    && subst[0].1 == facts.path && IsBasename(facts.path, subst[1].1) && subst[2].1 == Joined(facts.argv, ' ')
    && IsNumeral(facts.uid, subst[3].1) && subst[4].1 == facts.dstIp && IsNumeral(facts.dstPort, subst[5].1)
    && subst[6].1 == actor
    && (prior.Some? ==> subst[7].1 == prior.value.0 && subst[8].1 == prior.value.1)
  }

  lemma EngineListsFacts(facts: EventFacts, actor: string, prior: Option<(string, string)>)
    ensures ListsFacts(FactSubst(facts) + ExtraSubst(actor, prior), facts, actor, prior)
  {
    FactNames(facts);
    FactValues(facts);
    ExtraNames(actor, prior);
    ExtraValues(actor, prior);
    hide FactSubst, ExtraSubst, IsBasename, IsNumeral, Joined;
  }

  lemma EngineKeys(subst: Subst, both: bool)
    requires |subst| == (if both then 9 else 7) && forall i | 0 <= i < |subst| :: subst[i].0 == PLACEHOLDERS[i]
    ensures EnvOf(subst).Keys == {"path", "basename", "argv", "uid", "dst_ip", "dst_port", "actor"}
                                 + (if both then {"prior_path", "delay"} else {})
  {
    hide EnvOf, Firsts;
    PlaceholderNames();
    EnvKeys(subst, PLACEHOLDERS);
  }

  lemma ListedIsNamed(subst: Subst, facts: EventFacts, actor: string, prior: Option<(string, string)>)
    requires SoundNames(subst) && ListsFacts(subst, facts, actor, prior)
    requires forall i | 0 <= i < |subst| :: subst[i].0 == PLACEHOLDERS[i]
    ensures NamesFacts(EnvOf(subst), facts, actor, prior)
  {
    hide IsBasename, IsNumeral, Joined, EnvOf, SoundNames;
    EngineKeys(subst, prior.Some?);
    NineValues(subst);
  }

  /** The engine's substitution gives every placeholder the value it stands for. */
  lemma EngineNamesFacts(facts: EventFacts, actor: string, prior: Option<(string, string)>)
    ensures NamesFacts(EnvOf(FactSubst(facts) + ExtraSubst(actor, prior)), facts, actor, prior)
  {
    hide FactSubst, ExtraSubst, SoundNames, ListsFacts, NamesFacts, EnvOf;
    EngineSubst(facts, actor, prior);
    EngineListsFacts(facts, actor, prior);
    ListedIsNamed(FactSubst(facts) + ExtraSubst(actor, prior), facts, actor, prior);
  }

  /** The values of the placeholders by name. */
  lemma NineValues(subst: Subst)
    requires 7 <= |subst| <= 9 && SoundNames(subst) && forall i | 0 <= i < |subst| :: subst[i].0 == PLACEHOLDERS[i]
    ensures var env := EnvOf(subst);
            && "path" in env && env["path"] == subst[0].1 && "basename" in env && env["basename"] == subst[1].1
            && "argv" in env && env["argv"] == subst[2].1 && "uid" in env && env["uid"] == subst[3].1
            && "dst_ip" in env && env["dst_ip"] == subst[4].1 && "dst_port" in env && env["dst_port"] == subst[5].1
            && "actor" in env && env["actor"] == subst[6].1
            && (|subst| == 9 ==>
                  "prior_path" in env && env["prior_path"] == subst[7].1 && "delay" in env && env["delay"] == subst[8].1)
  {
    hide EnvOf, SoundNames;
    forall i | 0 <= i < |subst|
      ensures PLACEHOLDERS[i] in EnvOf(subst) && EnvOf(subst)[PLACEHOLDERS[i]] == subst[i].1
    {
      EnvAt(subst, i);
    }
    assert PLACEHOLDERS[0] == "path" && PLACEHOLDERS[1] == "basename" && PLACEHOLDERS[2] == "argv";
    assert PLACEHOLDERS[3] == "uid" && PLACEHOLDERS[4] == "dst_ip" && PLACEHOLDERS[5] == "dst_port";
    assert PLACEHOLDERS[6] == "actor" && PLACEHOLDERS[7] == "prior_path" && PLACEHOLDERS[8] == "delay";
  }

  lemma PlaceholdersAreDistinct()
    ensures |PLACEHOLDERS| == 9
    ensures forall i, j | 0 <= i < j < 9 :: PLACEHOLDERS[i] != PLACEHOLDERS[j]
    ensures forall i | 0 <= i < 9 :: Plain(PLACEHOLDERS[i]) && '}' !in PLACEHOLDERS[i]
    ensures forall i | 0 <= i < 9 :: NeedsPrior(PLACEHOLDERS[i]) <==> i >= 7
  {
  }

  /** The engine's replacements can differ from the substitution: a path that reads `{uid}` is itself filled in. */
  lemma BracesInValuesAreRescanned(r: Rule, facts: EventFacts, actor: string)
    requires r.message == Braced("path") && facts.path == Braced("uid")
    ensures Rendered(r, facts, ExtraSubst(actor, None)) == Decimal(facts.uid)
    ensures Substitute(r.message, EnvOf(FactSubst(facts) + ExtraSubst(actor, None))) == Braced("uid") != Decimal(facts.uid)
  {
    LonePathRenders(facts);
    ActorAfterFacts(facts, actor);
    PathValue(facts, ExtraSubst(actor, None));
    LoneTokenSubstitutes("path", EnvOf(FactSubst(facts) + ExtraSubst(actor, None)));
    assert Braced("uid")[0] == '{' && Decimal(facts.uid)[0] in Decimal(facts.uid);
  }

  lemma PathValue(facts: EventFacts, extra: Subst)
    ensures var env := EnvOf(FactSubst(facts) + extra); "path" in env && env["path"] == facts.path
  {
    var subst := FactSubst(facts) + extra;
    assert subst[0] == ("path", facts.path);
  }

  /** The replacement of the actor finds nothing in a number. */
  lemma ActorAfterFacts(facts: EventFacts, actor: string)
    requires ReplaceAll(Braced("path"), FactSubst(facts)) == Decimal(facts.uid)
    ensures ReplaceAll(Braced("path"), FactSubst(facts) + ExtraSubst(actor, None)) == Decimal(facts.uid)
  {
    hide FactSubst, Replace, ReplaceAll;
    ReplaceAllConcat(Braced("path"), FactSubst(facts), ExtraSubst(actor, None));
    ReplaceAllOne(Decimal(facts.uid), "actor", actor);
    PlainStays(Decimal(facts.uid), "actor", actor);
    assert ExtraSubst(actor, None) == [("actor", actor)];
  }

  lemma LonePathRenders(facts: EventFacts)
    requires facts.path == Braced("uid")
    ensures ReplaceAll(Braced("path"), FactSubst(facts)) == Decimal(facts.uid)
  {
    PathBecomesUid(BasenameOf(facts.path), Joined(facts.argv, ' '));
    UidBecomesNumber(Decimal(facts.uid), facts.dstIp, Decimal(facts.dstPort));
    FactReplacements(Braced("path"), facts);
  }

  lemma PathBecomesUid(base: string, argv: string)
    ensures Replace(Replace(Replace(Braced("path"), Braced("path"), Braced("uid")), Braced("basename"), base),
                    Braced("argv"), argv) == Braced("uid")
  {
    hide Replace, Braced;
    PlaceholdersAreDistinct();
    LoneToken(PLACEHOLDERS[0], PLACEHOLDERS[0], Braced("uid"));
    LoneToken(PLACEHOLDERS[3], PLACEHOLDERS[1], base);
    LoneToken(PLACEHOLDERS[3], PLACEHOLDERS[2], argv);
  }

  lemma UidBecomesNumber(number: string, ip: string, port: string)
    requires Plain(number)
    ensures Replace(Replace(Replace(Braced("uid"), Braced("uid"), number), Braced("dst_ip"), ip),
                    Braced("dst_port"), port) == number
  {
    hide Replace, Braced;
    PlaceholdersAreDistinct();
    LoneToken(PLACEHOLDERS[3], PLACEHOLDERS[3], number);
    PlainStays(number, PLACEHOLDERS[4], ip);
    PlainStays(number, PLACEHOLDERS[5], port);
  }

  lemma PlainStays(lit: string, k: string, v: string)
    requires Plain(lit)
    ensures Replace(lit, Braced(k), v) == lit
  {
    PlainPrefixStays(lit, "", k, v);
    assert lit + "" == lit;
  }

  lemma LoneToken(name: string, k: string, v: string)
    requires Plain(name) && '}' !in name && '}' !in k
    ensures Replace(Braced(name), Braced(k), v) == if name == k then v else Braced(name)
  {
    ReplaceToken("", name, "", k, v);
    assert "" + Braced(name) + "" == Braced(name);
    assert Replace("", Braced(k), v) == "";
  }

  lemma EmptyMessage(env: map<string, string>)
    ensures Substitute("", env) == ""
  {
  }

  lemma Bare(s: string)
    ensures "" + s + "" == s
  {
  }

  lemma LoneTokenSubstitutes(name: string, env: map<string, string>)
    requires '}' !in name
    ensures Substitute(Braced(name), env) == Filled(name, env)
  {
    hide Substitute, Find, Tokens, Filled, Braced;
    TokenSplit("", name, "", env);
    EmptyMessage(env);
    Bare(Braced(name));
    Bare(Filled(name, env));
  }
}
