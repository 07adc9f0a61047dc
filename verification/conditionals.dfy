/**
 * The conditional directives of list texts, src/prepstdreply.c: a linked stack of conditionals and
 * one `skip` pointer, against the recursive meaning of nested if/else/endif.
 */
module Conditionals {
  import opened Wrappers
  import Letters
  import Seqs

  // ---------------------------------------------------------------- tests

  datatype Target = Action | Reason | Type | Control

  /** %ifaction a b%, %ifncontrol c% and so on, with the parameters split at the spaces. */
  datatype Test = Test(target: Target, negated: bool, params: seq<string>)

  /** What the tests are made against; a NULL action, reason or type is None. */
  datatype Env = Env(action: Option<string>, reason: Option<string>, type_: Option<string>, control: set<string>)

  function Subject(env: Env, target: Target): Option<string> {
    match target
    case Action => env.action
    case Reason => env.reason
    case Type => env.type_
    case Control => None
  }

  predicate Matches(env: Env, target: Target, param: string) {
    if target == Control then param in env.control
    else Subject(env, target).Some? && Letters.Same(param, Subject(env, target).value)
  }

  /** What a parameter can be made of; a dot does not come first. */
  predicate IsParam(param: string) {
    forall i :: 0 <= i < |param| ==>
      var c := param[i];
      '0' <= c <= '9' || 'A' <= c <= 'Z' || 'a' <= c <= 'z' || c == '_' || c == '-' || (c == '.' && i > 0)
  }

  predicate Hit(env: Env, t: Test, param: string) {
    Matches(env, t.target, param) != t.negated
  }

  /** The k-th parameter is looked at, as none in front of it decides. */
  predicate LookedAt(env: Env, t: Test, k: int) {
    0 <= k < |t.params| && forall j :: 0 <= j < k ==> !Hit(env, t, t.params[j])
  }

  /**
   * A test that comes to a parameter with other characters, or to something that is not set, is no conditional
   * directive, unless text is being skipped.
   */
  predicate Evaluable(env: Env, t: Test) {
    forall k :: 0 <= k < |t.params| && LookedAt(env, t, k) ==>
      IsParam(t.params[k]) && (t.target == Control || Subject(env, t.target).Some?)
  }

  /** Some parameter matches, or for a negative test some parameter does not. */
  predicate Satisfied(env: Env, t: Test) {
    exists p :: p in t.params && Hit(env, t, p)
  }

  // ---------------------------------------------------------------- what a test is made against

  /** What a parameter is made of, spelled out. */
  lemma ParamLetters(param: string)
    ensures IsParam(param) <==>
              && (forall c :: c in param ==> c in Letters.UPPER || c in Letters.LOWER || c in "0123456789_-.")
              && (param != "" ==> param[0] != '.')
  {
    forall i | 0 <= i < |param|
      ensures param[i] in Letters.UPPER || param[i] in Letters.LOWER || param[i] in "0123456789" <==>
                '0' <= param[i] <= '9' || 'A' <= param[i] <= 'Z' || 'a' <= param[i] <= 'z'
    {
      Letters.Capital(param[i]);
      Letters.Small(param[i]);
      Letters.InDigits(param[i]);
    }
    hide Letters.UPPER, Letters.LOWER;
    if IsParam(param) {
      forall c | c in param ensures c in Letters.UPPER || c in Letters.LOWER || c in "0123456789_-." {
        var i :| 0 <= i < |param| && param[i] == c;
      }
    }
  }

  /** Some parameter is the value but for the case of letters, or for a negative test some is not. */
  predicate SomeDecides(params: seq<string>, value: string, negated: bool) {
    exists p :: p in params && Letters.OtherCase(p, value) != negated
  }

  predicate AllParams(params: seq<string>) {
    params != [] && forall k :: 0 <= k < |params| ==> IsParam(params[k])
  }

  /** Each test is on the field it is named after: it can be made if that is set, and the field decides it. */
  lemma TestsItsField(env: Env, negated: bool, params: seq<string>)
    requires AllParams(params)
    ensures Evaluable(env, Test(Action, negated, params)) <==> env.action.Some?
    ensures env.action.Some? ==>
              (Satisfied(env, Test(Action, negated, params)) <==> SomeDecides(params, env.action.value, negated))
    ensures Evaluable(env, Test(Reason, negated, params)) <==> env.reason.Some?
    ensures env.reason.Some? ==>
              (Satisfied(env, Test(Reason, negated, params)) <==> SomeDecides(params, env.reason.value, negated))
    ensures Evaluable(env, Test(Type, negated, params)) <==> env.type_.Some?
    ensures env.type_.Some? ==>
              (Satisfied(env, Test(Type, negated, params)) <==> SomeDecides(params, env.type_.value, negated))
    ensures Evaluable(env, Test(Control, negated, params))
    ensures Satisfied(env, Test(Control, negated, params)) <==>
              exists p :: p in params && (p in env.control) != negated
  {
    FieldDecides(env, Test(Action, negated, params));
    FieldDecides(env, Test(Reason, negated, params));
    FieldDecides(env, Test(Type, negated, params));
    FieldDecides(env, Test(Control, negated, params));
    hide Evaluable, Satisfied, SomeDecides;
    ControlDecides(env, negated, params);
  }

  lemma FieldDecides(env: Env, t: Test)
    requires AllParams(t.params)
    ensures Evaluable(env, t) <==> t.target == Control || Subject(env, t.target).Some?
    ensures t.target != Control && Subject(env, t.target).Some? ==>
              (Satisfied(env, t) <==> SomeDecides(t.params, Subject(env, t.target).value, t.negated))
  {
    hide Letters.Same, Letters.OtherCase, IsParam, Subject;
    assert LookedAt(env, t, 0);
    if t.target != Control && Subject(env, t.target).Some? {
      var value := Subject(env, t.target).value;
      forall p ensures Letters.Same(p, value) <==> Letters.OtherCase(p, value) {
        Letters.SameIff(p, value);
      }
    }
  }

  lemma ControlDecides(env: Env, negated: bool, params: seq<string>)
    ensures Satisfied(env, Test(Control, negated, params)) <==>
              exists p :: p in params && (p in env.control) != negated
  {
    var t := Test(Control, negated, params);
    if Satisfied(env, t) {
      var p :| p in t.params && Hit(env, t, p);
      assert p in params && (p in env.control) != negated;
    }
    if p :| p in params && (p in env.control) != negated {
      assert Hit(env, t, p);
    }
  }

  predicate OneParam(t: Test) {
    |t.params| == 1 && IsParam(t.params[0])
  }

  lemma OneParamDecides(env: Env, t: Test)
    requires OneParam(t)
    ensures t.target == Action ==> Evaluable(env, t) == env.action.Some?
    ensures t.target == Action && env.action.Some? ==>
              Satisfied(env, t) == (Letters.OtherCase(t.params[0], env.action.value) != t.negated)
    ensures t.target == Reason ==> Evaluable(env, t) == env.reason.Some?
    ensures t.target == Reason && env.reason.Some? ==>
              Satisfied(env, t) == (Letters.OtherCase(t.params[0], env.reason.value) != t.negated)
    ensures t.target == Type ==> Evaluable(env, t) == env.type_.Some?
    ensures t.target == Type && env.type_.Some? ==>
              Satisfied(env, t) == (Letters.OtherCase(t.params[0], env.type_.value) != t.negated)
    ensures t.target == Control ==> Evaluable(env, t)
    ensures t.target == Control ==> Satisfied(env, t) == ((t.params[0] in env.control) != t.negated)
  {
    TestsItsField(env, t.negated, t.params);
    hide Evaluable, Satisfied, Letters.OtherCase;
    assert t.params == [t.params[0]];
  }

  /** A parameter with other characters spoils the test, unless one in front of it decides. */
  lemma SpoiltIff(env: Env, target: Target, negated: bool, good: seq<string>, bad: string, rest: seq<string>)
    requires (forall k :: 0 <= k < |good| ==> IsParam(good[k])) && !IsParam(bad)
    ensures Evaluable(env, Test(target, negated, good + ([bad] + rest))) <==>
              Evaluable(env, Test(target, negated, good)) && Satisfied(env, Test(target, negated, good))
  {
    hide Matches, IsParam, Subject;
    var t, u := Test(target, negated, good + ([bad] + rest)), Test(target, negated, good);
    assert forall k :: 0 <= k < |good| ==> t.params[k] == good[k];
    assert t.params[|good|] == bad;
    if Satisfied(env, u) {
      var i :| 0 <= i < |good| && Hit(env, u, good[i]);
      assert Hit(env, t, t.params[i]);
      assert forall k :: 0 <= k < |t.params| && LookedAt(env, t, k) ==> k <= i && LookedAt(env, u, k);
      assert forall k :: 0 <= k < |good| && LookedAt(env, u, k) ==> LookedAt(env, t, k);
    } else {
      forall j | 0 <= j < |good| ensures !Hit(env, t, t.params[j]) {
        assert good[j] in u.params && !Hit(env, u, good[j]);
      }
      assert LookedAt(env, t, |good|);
    }
  }

  /** The other fields do not matter. */
  lemma OtherFields(env: Env, env': Env, t: Test)
    requires match t.target
             case Action => env.action == env'.action
             case Reason => env.reason == env'.reason
             case Type => env.type_ == env'.type_
             case Control => env.control == env'.control
    ensures Evaluable(env, t) == Evaluable(env', t) && Satisfied(env, t) == Satisfied(env', t)
  {
    forall p ensures Hit(env, t, p) == Hit(env', t, p) {
    }
    assert Subject(env, t.target) == Subject(env', t.target);
    hide Hit, Subject, IsParam;
    assert forall k :: LookedAt(env, t, k) == LookedAt(env', t, k);
  }

  // ---------------------------------------------------------------- the recursive meaning

  datatype Block = Nil | Text(c: char, rest: Block) | If(test: Test, parts: Parts, rest: Block)
  datatype Parts = Last(b: Block) | More(b: Block, else_: Parts)

  /** The text a block stands for; successive parts of a conditional are live and dead in turn. */
  function Meaning(b: Block, env: Env): string {
    match b
    case Nil => ""
    case Text(c, rest) => [c] + Meaning(rest, env)
    case If(t, parts, rest) => MeaningParts(parts, Satisfied(env, t), env) + Meaning(rest, env)
  }

  function MeaningParts(p: Parts, live: bool, env: Env): string {
    match p
    case Last(b) => if live then Meaning(b, env) else ""
    case More(b, else_) => (if live then Meaning(b, env) else "") + MeaningParts(else_, !live, env)
  }

  /** Of the parts of a conditional every other one is text, beginning with the first or the second. */
  lemma EveryOtherPart(a: Block, b: Block, p: Parts, live: bool, env: Env)
    ensures MeaningParts(More(a, More(b, p)), live, env)
            == Meaning(if live then a else b, env) + MeaningParts(p, live, env)
    ensures MeaningParts(More(a, Last(b)), live, env) == Meaning(if live then a else b, env)
    ensures MeaningParts(Last(a), live, env) == if live then Meaning(a, env) else ""
  {
    Seqs.Unit(Meaning(a, env));
    Seqs.Unit(Meaning(b, env));
    Seqs.Unit(MeaningParts(p, live, env));
  }

  /** The tests in live parts are on something that is set; those in dead parts are never made. */
  predicate LiveEvaluable(b: Block, live: bool, env: Env) {
    match b
    case Nil => true
    case Text(_, rest) => LiveEvaluable(rest, live, env)
    case If(t, parts, rest) =>
      && (live ==> Evaluable(env, t))
      && PartsEvaluable(parts, live, !live || Satisfied(env, t), env)
      && LiveEvaluable(rest, live, env)
  }

  predicate PartsEvaluable(p: Parts, live: bool, first: bool, env: Env) {
    match p
    case Last(b) => LiveEvaluable(b, live && first, env)
    case More(b, else_) => LiveEvaluable(b, live && first, env) && PartsEvaluable(else_, live, !first, env)
  }

  // ---------------------------------------------------------------- the token stream

  datatype Token = Char(c: char) | IfToken(test: Test) | Else | Endif

  function Flatten(b: Block): seq<Token> {
    match b
    case Nil => []
    case Text(c, rest) => [Char(c)] + Flatten(rest)
    case If(t, parts, rest) => [IfToken(t)] + FlattenParts(parts) + [Endif] + Flatten(rest)
  }

  function FlattenParts(p: Parts): seq<Token> {
    match p
    case Last(b) => Flatten(b)
    case More(b, else_) => Flatten(b) + [Else] + FlattenParts(else_)
  }

  /** A directive that is not handled stays in the text as it was written. */
  function Spelling(t: Token): string {
    match t
    case Char(c) => [c]
    case IfToken(test) => "%" + Directive(test) + Join(test.params) + "%"
    case Else => "%else%"
    case Endif => "%endif%"
  }

  function Directive(t: Test): string {
    (if t.negated then "ifn" else "if") +
    match t.target
    case Action => "action"
    case Reason => "reason"
    case Type => "type"
    case Control => "control"
  }

  function Join(params: seq<string>): string {
    if params == [] then "" else " " + params[0] + Join(params[1..])
  }

  /** The words of the directives, as they are written in list texts. */
  lemma DirectiveWords(params: seq<string>)
    ensures Directive(Test(Action, false, params)) == "ifaction" && Directive(Test(Action, true, params)) == "ifnaction"
    ensures Directive(Test(Reason, false, params)) == "ifreason" && Directive(Test(Reason, true, params)) == "ifnreason"
    ensures Directive(Test(Type, false, params)) == "iftype" && Directive(Test(Type, true, params)) == "ifntype"
    ensures Directive(Test(Control, false, params)) == "ifcontrol"
    ensures Directive(Test(Control, true, params)) == "ifncontrol"
  {
  }

  /** A directive with one parameter or two. */
  lemma SpelledOut(t: Test, a: string, b: string)
    ensures t.params == [a] ==> Spelling(IfToken(t)) == "%" + Directive(t) + (" " + a) + "%"
    ensures t.params == [a, b] ==> Spelling(IfToken(t)) == "%" + Directive(t) + (" " + a + (" " + b)) + "%"
  {
    hide Directive;
    JoinOne(a);
    JoinOne(b);
    assert [a, b][1..] == [b];
    assert Join([a, b]) == " " + a + Join([b]);
    hide Join;
  }

  lemma JoinOne(a: string)
    ensures Join([a]) == " " + a
  {
    assert [a][1..] == [];
    Seqs.Unit(" " + a);
  }

  /** Which open conditionals, innermost first, are in a live part. */
  predicate AllLive(live: seq<bool>) {
    forall i :: 0 <= i < |live| ==> live[i]
  }

  predicate Handled(live: seq<bool>, t: Token, env: Env) {
    match t
    case Char(_) => false
    case IfToken(test) => !AllLive(live) || Evaluable(env, test)
    case _ => live != []
  }

  /** One token: the new stack and the text let through. */
  function Step(live: seq<bool>, t: Token, env: Env): (seq<bool>, string) {
    if !Handled(live, t, env) then (live, if AllLive(live) then Spelling(t) else "")
    else match t
      case IfToken(test) => ([!AllLive(live) || Satisfied(env, test)] + live, "")
      case Else => ([!live[0]] + live[1..], "")
      case Endif => (live[1..], "")
      case Char(_) => assert false; (live, "")
  }

  function Run(live: seq<bool>, ts: seq<Token>, env: Env): (seq<bool>, string)
    decreases |ts|
  {
    if ts == [] then (live, "")
    else
      var (l1, o1) := Run(live, ts[..|ts| - 1], env);
      var (l2, o2) := Step(l1, ts[|ts| - 1], env);
      (l2, o1 + o2)
  }

  lemma {:induction false} RunSplit(live: seq<bool>, a: seq<Token>, b: seq<Token>, env: Env)
    ensures var (l1, o1) := Run(live, a, env);
            var (l2, o2) := Run(l1, b, env);
            Run(live, a + b, env) == (l2, o1 + o2)
    decreases |b|
  {
    hide Step;
    if b == [] {
      Seqs.Unit(a);
      Seqs.Unit(Run(live, a, env).1);
    } else {
      var n := |b| - 1;
      RunSplit(live, a, b[..n], env);
      Seqs.DropLast(a, b);
      var (l1, o1) := Run(live, a, env);
      var (l2, o2) := Run(l1, b[..n], env);
      Seqs.Assoc(o1, o2, Step(l2, b[n], env).1);
    }
  }

  lemma StepIf(live: seq<bool>, t: Test, env: Env)
    ensures Handled(live, IfToken(t), env) <==> !AllLive(live) || Evaluable(env, t)
    ensures Step(live, IfToken(t), env).0 ==
              if !AllLive(live) then [true] + live
              else if Evaluable(env, t) then [Satisfied(env, t)] + live else live
  {
  }

  lemma RunOne(live: seq<bool>, t: Token, env: Env)
    ensures Run(live, [t], env) == Step(live, t, env)
  {
    assert [t][..0] == [];
    Seqs.Unit(Step(live, t, env).1);
  }

  lemma PushLive(b: bool, live: seq<bool>)
    ensures AllLive([b] + live) <==> b && AllLive(live)
    ensures ([b] + live)[1..] == live
  {
    if AllLive([b] + live) {
      assert ([b] + live)[0];
      forall i | 0 <= i < |live| ensures live[i] { assert ([b] + live)[i + 1]; }
    }
  }

  /** On every nested text the stack machine lets through exactly what the recursive meaning says. */
  lemma {:induction false} RunMeaning(live: seq<bool>, b: Block, env: Env)
    requires LiveEvaluable(b, AllLive(live), env)
    ensures Run(live, Flatten(b), env) == (live, if AllLive(live) then Meaning(b, env) else "")
    decreases b
  {
    match b {
      case Nil =>
      case Text(c, rest) =>
        RunMeaning(live, rest, env);
        RunOne(live, Char(c), env);
        RunSplit(live, [Char(c)], Flatten(rest), env);
      case If(t, parts, rest) =>
        var first := !AllLive(live) || Satisfied(env, t);
        RunOne(live, IfToken(t), env);
        var last := RunParts(live, first, parts, env);
        RunMeaning(live, rest, env);
        RunIf(live, t, first, last, parts, rest, env);
    }
  }

  lemma {:induction false} RunParts(live: seq<bool>, first: bool, p: Parts, env: Env) returns (last: bool)
    requires PartsEvaluable(p, AllLive(live), first, env)
    ensures Run([first] + live, FlattenParts(p), env)
            == ([last] + live, if AllLive(live) then MeaningParts(p, first, env) else "")
    decreases p
  {
    PushLive(first, live);
    match p {
      case Last(b) =>
        RunMeaning([first] + live, b, env);
        last := first;
      case More(b, else_) =>
        RunMeaning([first] + live, b, env);
        last := RunParts(live, !first, else_, env);
        RunMore(live, first, last, b, else_, env);
    }
  }

  lemma RunMore(live: seq<bool>, first: bool, last: bool, b: Block, else_: Parts, env: Env)
    requires Run([first] + live, Flatten(b), env)
             == ([first] + live, if AllLive([first] + live) then Meaning(b, env) else "")
    requires Run([!first] + live, FlattenParts(else_), env)
             == ([last] + live, if AllLive(live) then MeaningParts(else_, !first, env) else "")
    ensures var p := More(b, else_);
            Run([first] + live, FlattenParts(p), env)
            == ([last] + live, if AllLive(live) then MeaningParts(p, first, env) else "")
  {
    hide Run, Meaning;
    PushLive(first, live);
    RunOne([first] + live, Else, env);
    RunSplit([first] + live, Flatten(b), [Else], env);
    RunSplit([first] + live, Flatten(b) + [Else], FlattenParts(else_), env);
    Seqs.Unit(Run([first] + live, Flatten(b), env).1);
  }

  lemma RunIf(live: seq<bool>, t: Test, first: bool, last: bool, parts: Parts, rest: Block, env: Env)
    requires Run(live, [IfToken(t)], env) == ([first] + live, "")
    requires Run([first] + live, FlattenParts(parts), env)
             == ([last] + live, if AllLive(live) then MeaningParts(parts, first, env) else "")
    requires AllLive(live) ==> first == Satisfied(env, t)
    requires Run(live, Flatten(rest), env) == (live, if AllLive(live) then Meaning(rest, env) else "")
    ensures var b := If(t, parts, rest);
            Run(live, Flatten(b), env) == (live, if AllLive(live) then Meaning(b, env) else "")
  {
    var begun := [IfToken(t)] + FlattenParts(parts);
    assert Flatten(If(t, parts, rest)) == begun + [Endif] + Flatten(rest);
    PushLive(last, live);
    assert Step([last] + live, Endif, env) == (live, "");
    assert Meaning(If(t, parts, rest), env) == MeaningParts(parts, Satisfied(env, t), env) + Meaning(rest, env);
    hide *;
    RunSplit(live, [IfToken(t)], FlattenParts(parts), env);
    RunOne([last] + live, Endif, env);
    RunSplit(live, begun, [Endif], env);
    RunSplit(live, begun + [Endif], Flatten(rest), env);
    var out := if AllLive(live) then MeaningParts(parts, first, env) else "";
    Seqs.Unit(out);
    assert Run(live, begun + [Endif], env) == (live, out);
  }

  // ---------------------------------------------------------------- the linked stack

  class Conditional {
    const satisfied: bool
    var elsepart: bool
    const outer: Conditional?

    constructor (satisfied: bool, outer: Conditional?)
      ensures this.satisfied == satisfied && this.outer == outer && !elsepart
    {
      this.satisfied, this.outer := satisfied, outer;
      elsepart := false;
    }
  }

  /** The conditionals met on the way out from c. */
  ghost predicate Chain(c: Conditional?, stack: seq<Conditional>) {
    if stack == [] then c == null
    else c == stack[0] && c !in stack[1..] && Chain(c.outer, stack[1..])
  }

  /** The outermost conditional whose current part is dead, null if there is none. */
  ghost function OutermostDead(stack: seq<Conditional>, live: seq<bool>): (c: Conditional?)
    requires |stack| == |live|
    ensures c != null ==> c in stack
    ensures c == null <==> AllLive(live)
  {
    if live == [] then null
    else
      PushLive(live[0], live[1..]);
      assert [live[0]] + live[1..] == live;
      var c := OutermostDead(stack[1..], live[1..]);
      if c != null then c else if live[0] then null else stack[0]
  }

  /** What OutermostDead says: the one it gives is dead, and everything further out is live. */
  lemma {:induction false} OutermostDeadMeaning(stack: seq<Conditional>, live: seq<bool>) returns (i: int)
    requires |stack| == |live| && !AllLive(live)
    ensures 0 <= i < |live| && OutermostDead(stack, live) == stack[i]
    ensures !live[i] && forall j :: i < j < |live| ==> live[j]
  {
    PushLive(live[0], live[1..]);
    assert [live[0]] + live[1..] == live;
    if AllLive(live[1..]) {
      i := 0;
      forall j | 0 < j < |live| ensures live[j] { assert live[1..][j - 1]; }
    } else {
      i := OutermostDeadMeaning(stack[1..], live[1..]);
      i := i + 1;
      forall j | i < j < |live| ensures live[j] { assert live[1..][j - 1]; }
    }
  }

  class ListText {
    const env: Env
    var cond: Conditional?
    var skip: Conditional?
    ghost var stack: seq<Conditional>  // innermost first
    ghost var repr: set<Conditional>   // every entry there has been
    ghost var live: seq<bool>          // whether the current part of each is live

    ghost predicate Valid()
      reads this
    {
      && |stack| == |live| && Chain(cond, stack) && (forall c :: c in stack ==> c in repr)
      && skip == OutermostDead(stack, live)
    }

    constructor (env: Env)
      ensures Valid() && this.env == env && live == [] && repr == {}
    {
      this.env := env;
      cond, skip, stack, live, repr := null, null, [], [], {};
    }

    /** The loop over the parameters in handle_conditional, or its shortcut while text is skipped. */
    method EvaluateTest(t: Test) returns (ok: bool, satisfied: bool)
      requires Valid()
      ensures ok == Handled(live, IfToken(t), env)
      ensures ok ==> satisfied == (!AllLive(live) || Satisfied(env, t))
    {
      if skip != null {
        // counts as successful, so that it does not register as the reason for skipping
        return true, true;
      }
      var i := 0;
      while i < |t.params|
        invariant 0 <= i <= |t.params|
        invariant forall k :: 0 <= k < i ==> !Hit(env, t, t.params[k])
        invariant forall k :: 0 <= k < i ==>
                    IsParam(t.params[k]) && (t.target == Control || Subject(env, t.target).Some?)
      {
        assert LookedAt(env, t, i);
        var valid := ScanParam(t.params[i]);
        if !valid { return false, false; }
        if t.target != Control && Subject(env, t.target).None? { return false, false; }
        if Matches(env, t.target, t.params[i]) != t.negated {
          assert Hit(env, t, t.params[i]) && t.params[i] in t.params;
          return true, true;
        }
        i := i + 1;
      }
      return true, false;
    }

    /** The characters of one parameter. */
    static method ScanParam(param: string) returns (valid: bool)
      ensures valid == IsParam(param)
    {
      var pos := 0;
      while pos < |param|
        invariant 0 <= pos <= |param| && IsParam(param[..pos])
      {
        var c := param[pos];
        if !('0' <= c <= '9' || 'A' <= c <= 'Z' || 'a' <= c <= 'z' || c == '_' || c == '-' || (c == '.' && pos > 0)) {
          return false;
        }
        pos := pos + 1;
      }
      assert param[..pos] == param;
      valid := true;
    }

    /** handle_conditional. */
    method HandleIf(t: Test) returns (ok: bool)
      requires Valid()
      modifies this
      ensures Valid() && fresh(repr - old(repr))
      ensures ok == Handled(old(live), IfToken(t), env)
      ensures live == Step(old(live), IfToken(t), env).0
      ensures AllLive(old(live)) && OneParam(t) && t.target == Action ==>
                ok == env.action.Some?
                && (ok ==> live == [Letters.OtherCase(t.params[0], env.action.value) != t.negated] + old(live))
      ensures AllLive(old(live)) && OneParam(t) && t.target == Reason ==>
                ok == env.reason.Some?
                && (ok ==> live == [Letters.OtherCase(t.params[0], env.reason.value) != t.negated] + old(live))
      ensures AllLive(old(live)) && OneParam(t) && t.target == Type ==>
                ok == env.type_.Some?
                && (ok ==> live == [Letters.OtherCase(t.params[0], env.type_.value) != t.negated] + old(live))
      ensures AllLive(old(live)) && OneParam(t) && t.target == Control ==>
                ok && live == [(t.params[0] in env.control) != t.negated] + old(live)
      ensures !AllLive(old(live)) ==> ok && live == [true] + old(live)
    {
      StepIf(live, t, env);
      if OneParam(t) { OneParamDecides(env, t); }
      hide Evaluable, Satisfied, OneParam, Step, Handled, Letters.OtherCase;
      var satisfied;
      ok, satisfied := EvaluateTest(t);
      if !ok { return; }
      ghost var before := stack;
      var c := new Conditional(satisfied, cond);
      cond := c;
      if !satisfied { skip := c; }
      stack, live, repr := [c] + stack, [satisfied] + live, repr + {c};
      assert stack[1..] == before && live[1..] == old(live);
    }

    /** The "else" branch of handle_directive. */
    method HandleElse() returns (ok: bool)
      requires Valid()
      modifies this, repr
      ensures Valid() && repr == old(repr)
      ensures ok == Handled(old(live), Else, env)
      ensures live == Step(old(live), Else, env).0
    {
      if cond == null { return false; }
      ghost var outer := OutermostDead(stack[1..], live[1..]);
      if skip == cond { skip := null; }
      else if skip == null { skip := cond; }
      cond.elsepart := true;
      live := [!live[0]] + live[1..];
      assert live[1..] == old(live)[1..];
      ok := true;
    }

    /** The "endif" branch of handle_directive; `swallow` asks for a preceding blank line to go. */
    method HandleEndif() returns (ok: bool, swallow: bool)
      requires Valid()
      modifies this
      ensures Valid() && fresh(repr - old(repr))
      ensures ok == Handled(old(live), Endif, env)
      ensures live == Step(old(live), Endif, env).0
      ensures swallow == (ok && !old(stack)[0].satisfied && !old(stack[0].elsepart))
    {
      if cond == null { return false, false; }
      if skip == cond { skip := null; }
      swallow := !cond.satisfied && !cond.elsepart;
      cond := cond.outer;
      stack, live := stack[1..], live[1..];
      ok := true;
    }

    /** handle_directive, as far as conditionals go. */
    method HandleDirective(t: Token) returns (ok: bool)
      requires Valid() && !t.Char?
      modifies this, repr
      ensures Valid() && fresh(repr - old(repr))
      ensures ok == Handled(old(live), t, env)
      ensures live == Step(old(live), t, env).0
    {
      match t {
        case IfToken(test) => ok := HandleIf(test);
        case Else => ok := HandleElse();
        case Endif => var swallow; ok, swallow := HandleEndif();
      }
    }

    /**
     * The part of get_processed_text_line that deals with conditionals, for one line. While text is
     * skipped it stays in the line; `incision` remembers where to cut once the skipping ends. A line
     * skipped from its very start is not returned at all, nor are blanks left over from a line with directives.
     */
    method ProcessLine(ts: seq<Token>) returns (kept: Option<string>)
      requires Valid()
      modifies this, repr
      ensures Valid() && fresh(repr - old(repr))
      ensures var (l, piece) := Run(old(live), ts, env);
              live == l && kept == if Omitted(ts, l, piece) then None else Some(piece)
    {
      var line, incision, directive := ProcessTokens(ts);
      VisibleLine(line, incision);
      hide Valid, Run, Visible;
      if incision == 0 { return None; }
      if incision != -1 { line := line[..incision]; }
      if directive {
        var blank := OnlyBlanks(line);
        if blank { return None; }
      }
      kept := Some(line);
    }

    static method OnlyBlanks(line: string) returns (blank: bool)
      ensures blank <==> forall i :: 0 <= i < |line| ==> IsBlank(line[i])
    {
      var pos := 0;
      while pos < |line| && IsBlank(line[pos])
        invariant 0 <= pos <= |line| && forall i :: 0 <= i < pos ==> IsBlank(line[i])
      {
        pos := pos + 1;
      }
      blank := pos == |line|;
    }

    /** The characters of a line, with what is left to be cut. */
    method ProcessTokens(ts: seq<Token>) returns (line: string, incision: int, directive: bool)
      requires Valid()
      modifies this, repr
      ensures Valid() && fresh(repr - old(repr))
      ensures -1 <= incision <= |line| && (incision == -1 <==> AllLive(live))
      ensures Run(old(live), ts, env) == (live, Visible(line, incision))
      ensures directive == HasDirective(ts)
    {
      StartLine(ts);
      hide Run, Step, OutermostDead, Chain, Visible, AllLive, HasDirective, IsDirective;
      line, directive := "", false;
      incision := if skip != null then 0 else -1;
      var i := 0;
      while i < |ts|
        invariant 0 <= i <= |ts|
        invariant Valid() && fresh(repr - old(repr))
        invariant incision == -1 <==> AllLive(live)
        invariant -1 <= incision <= |line|
        invariant Run(old(live), ts[..i], env) == (live, Visible(line, incision))
        invariant directive == HasDirective(ts[..i])
      {
        DirectiveNext(ts, i);
        directive := directive || IsDirective(ts[i]);
        line, incision := NextToken(ts, i, line, incision, old(live));
        i := i + 1;
      }
      assert ts[..i] == ts;
    }

    /** The i-th of the characters and directives, in a run that began with the stack `before`. */
    method NextToken(ts: seq<Token>, i: nat, line: string, incision: int, ghost before: seq<bool>)
      returns (line': string, incision': int)
      requires Valid() && i < |ts| && -1 <= incision <= |line|
      requires incision == -1 <==> AllLive(live)
      requires Run(before, ts[..i], env) == (live, Visible(line, incision))
      modifies this, repr
      ensures Valid() && fresh(repr - old(repr))
      ensures -1 <= incision' <= |line'| && (incision' == -1 <==> AllLive(live))
      ensures Run(before, ts[..i + 1], env) == (live, Visible(line', incision'))
    {
      hide Run, Step, OutermostDead, Chain, Visible, AllLive;
      RunNext(before, ts, i, env);
      line', incision' := ProcessToken(ts[i], line, incision);
    }

    /** Nothing of the line has been looked at yet. */
    lemma StartLine(ts: seq<Token>)
      requires Valid()
      ensures skip != null <==> !AllLive(live)
      ensures ts[..0] == [] && Run(live, [], env) == (live, "") && Visible("", 0) == "" && Visible("", -1) == ""
      ensures !HasDirective([])
    {
    }

    static lemma VisibleLine(line: string, incision: int)
      requires -1 <= incision <= |line|
      ensures Visible(line, incision) == if incision == -1 then line else line[..incision]
    {
    }

    /** One character or directive of a line. */
    method ProcessToken(t: Token, line: string, incision: int) returns (line': string, incision': int)
      requires Valid() && -1 <= incision <= |line|
      requires incision == -1 <==> AllLive(live)
      modifies this, repr
      ensures Valid() && fresh(repr - old(repr))
      ensures live == Step(old(live), t, env).0
      ensures -1 <= incision' <= |line'|
      ensures incision' == -1 <==> AllLive(live)
      ensures Visible(line', incision') == Visible(line, incision) + Step(old(live), t, env).1
    {
      StepText(live, t, env);
      hide Step, Spelling, Visible, AllLive;
      var ok := false;
      if !t.Char? { ok := HandleDirective(t); }
      Seqs.Unit(Visible(line, incision));
      if !ok {
        VisibleGrows(line, incision, Spelling(t));
        line', incision' := line + Spelling(t), incision;
      } else {
        line', incision' := Cut(line, incision, skip != null);
      }
    }

    /** The text of a line that is not going to be cut. */
    static function Visible(line: string, incision: int): string
      requires -1 <= incision <= |line|
    {
      if incision == -1 then line else line[..incision]
    }

    static lemma VisibleGrows(line: string, incision: int, more: string)
      requires -1 <= incision <= |line|
      ensures Visible(line + more, incision) == Visible(line, incision) + if incision == -1 then more else ""
    {
    }

    /** Begin or end a stretch to cut out, after a directive. */
    static method Cut(line: string, incision: int, skipping: bool) returns (line': string, incision': int)
      requires -1 <= incision <= |line|
      ensures -1 <= incision' <= |line'|
      ensures incision' == -1 <==> !skipping
      ensures Visible(line', incision') == Visible(line, incision)
    {
      line', incision' := line, incision;
      if skipping {
        if incision == -1 { incision' := |line|; }
      } else if incision != -1 {
        line' := line[..incision];
        incision' := -1;
      }
    }

    static lemma RunNext(live: seq<bool>, ts: seq<Token>, i: nat, env: Env)
      requires i < |ts|
      ensures var (l1, o1) := Run(live, ts[..i], env);
              Run(live, ts[..i + 1], env) == (Step(l1, ts[i], env).0, o1 + Step(l1, ts[i], env).1)
    {
      assert ts[..i + 1][..i] == ts[..i];
    }

    static lemma StepText(live: seq<bool>, t: Token, env: Env)
      ensures Handled(live, t, env) ==> !t.Char? && Step(live, t, env).1 == ""
      ensures !Handled(live, t, env) ==>
                Step(live, t, env) == (live, if AllLive(live) then Spelling(t) else "")
    {
    }

    /** Line after line, as prepstdreply asks for them. */
    method ProcessLines(lines: seq<seq<Token>>) returns (out: seq<string>)
      requires Valid()
      modifies this, repr
      ensures Valid() && fresh(repr - old(repr))
      ensures live == Run(old(live), Concat(lines), env).0
      ensures out == Kept(old(live), lines, |lines|, env)
    {
      out := [];
      var i := 0;
      assert lines[..0] == [];
      while i < |lines|
        invariant 0 <= i <= |lines|
        invariant Valid() && fresh(repr - old(repr))
        invariant live == Run(old(live), Concat(lines[..i]), env).0
        invariant out == Kept(old(live), lines, i, env)
      {
        hide Run, Chain, OutermostDead, AllLive, Omitted;
        ConcatSnoc(lines, i);
        RunSplit(old(live), Concat(lines[..i]), lines[i], env);
        var kept := ProcessLine(lines[i]);
        Seqs.Unit(out);
        if kept.Some? {
          out := out + [kept.value];
        }
        i := i + 1;
      }
      assert lines[..i] == lines;
    }
  }

  // ---------------------------------------------------------------- lines

  predicate IsBlank(c: char) {
    c == ' ' || c == '\t'
  }

  /** What makes get_processed_text_line remember that a line has a directive. */
  predicate IsDirective(t: Token) {
    !t.Char? || t.c == '%'
  }

  predicate HasDirective(ts: seq<Token>) {
    exists k :: 0 <= k < |ts| && IsDirective(ts[k])
  }

  lemma DirectiveNext(ts: seq<Token>, i: nat)
    requires i < |ts|
    ensures HasDirective(ts[..i + 1]) <==> HasDirective(ts[..i]) || IsDirective(ts[i])
  {
    assert ts[..i + 1][i] == ts[i];
    assert forall k :: 0 <= k < i ==> ts[..i + 1][k] == ts[..i][k];
  }

  /** No line comes out: nothing is left of one whose end is skipped, or only blanks of one with directives. */
  predicate Omitted(ts: seq<Token>, live: seq<bool>, piece: string) {
    || (!AllLive(live) && piece == "")
    || (HasDirective(ts) && forall i :: 0 <= i < |piece| ==> IsBlank(piece[i]))
  }

  /** The stack behind the i-th line, and what is let through of it. */
  function LineRun(live: seq<bool>, lines: seq<seq<Token>>, i: nat, env: Env): (seq<bool>, string)
    requires i < |lines|
  {
    Run(Run(live, Concat(lines[..i]), env).0, lines[i], env)
  }

  /** What is let through of the first n lines. */
  function Pieces(live: seq<bool>, lines: seq<seq<Token>>, n: nat, env: Env): seq<string>
    requires n <= |lines|
  {
    if n == 0 then [] else Pieces(live, lines, n - 1, env) + [LineRun(live, lines, n - 1, env).1]
  }

  /** The same without the lines omitted. */
  function Kept(live: seq<bool>, lines: seq<seq<Token>>, n: nat, env: Env): seq<string>
    requires n <= |lines|
  {
    if n == 0 then []
    else
      var (l, piece) := LineRun(live, lines, n - 1, env);
      Kept(live, lines, n - 1, env) + if Omitted(lines[n - 1], l, piece) then [] else [piece]
  }

  /** A text without directives is let through as it is and not omitted, unless it is skipped. */
  lemma {:induction false} PlainLine(live: seq<bool>, line: string, env: Env)
    requires '%' !in line
    ensures Run(live, Chars(line), env) == (live, if AllLive(live) then line else "")
    ensures Omitted(Chars(line), live, if AllLive(live) then line else "") <==> !AllLive(live)
  {
    assert !HasDirective(Chars(line));
    if line != "" {
      var n := |line| - 1;
      PlainLine(live, line[..n], env);
      assert Chars(line)[..n] == Chars(line[..n]) && Chars(line)[n] == Char(line[n]);
      assert Step(live, Char(line[n]), env) == (live, if AllLive(live) then [line[n]] else "");
      hide *;
      LetThrough(live, Chars(line), env, if AllLive(live) then line[..n] else "");
      Seqs.Snoc(line);
      Seqs.Unit("");
    } else {
      assert Chars(line) == [];
    }
  }

  /** One step more of a run that has left the stack as it was. */
  lemma LetThrough(live: seq<bool>, ts: seq<Token>, env: Env, out: string)
    requires ts != [] && Run(live, ts[..|ts| - 1], env) == (live, out)
    ensures var (l, o) := Step(live, ts[|ts| - 1], env); Run(live, ts, env) == (l, out + o)
  {
  }

  function Chars(line: string): (ts: seq<Token>)
    ensures |ts| == |line| && forall i :: 0 <= i < |line| ==> ts[i] == Char(line[i])
  {
    seq(|line|, i requires 0 <= i < |line| => Char(line[i]))
  }

  /** What there is besides blanks. */
  function Inked(s: string): string {
    if s == "" then "" else Inked(s[..|s| - 1]) + if s[|s| - 1] in " \t" then "" else [s[|s| - 1]]
  }

  lemma {:induction false} InkedConcat(a: string, b: string)
    ensures Inked(a + b) == Inked(a) + Inked(b)
    decreases |b|
  {
    if b == "" {
      Seqs.Unit(a);
      Seqs.Unit(Inked(a));
    } else {
      var n := |b| - 1;
      InkedConcat(a, b[..n]);
      Seqs.DropLast(a, b);
      Seqs.Assoc(Inked(a), Inked(b[..n]), if b[n] in " \t" then "" else [b[n]]);
    }
  }

  lemma {:induction false} InkedNothing(s: string)
    requires forall i :: 0 <= i < |s| ==> IsBlank(s[i])
    ensures Inked(s) == ""
  {
    if s != "" {
      InkedNothing(s[..|s| - 1]);
    }
  }

  /** But for blanks, the lines that come out are all that is let through. */
  lemma {:induction false} KeptInk(live: seq<bool>, lines: seq<seq<Token>>, n: nat, env: Env)
    requires n <= |lines|
    ensures Inked(Concat(Kept(live, lines, n, env))) == Inked(Concat(Pieces(live, lines, n, env)))
  {
    hide Run;
    if n > 0 {
      KeptInk(live, lines, n - 1, env);
      hide Inked;
      var (l, piece) := LineRun(live, lines, n - 1, env);
      ConcatOne(Pieces(live, lines, n - 1, env), piece);
      ConcatOne(Kept(live, lines, n - 1, env), piece);
      InkedConcat(Concat(Pieces(live, lines, n - 1, env)), piece);
      InkedConcat(Concat(Kept(live, lines, n - 1, env)), piece);
      Seqs.Unit(Kept(live, lines, n - 1, env));
      if Omitted(lines[n - 1], l, piece) {
        InkedNothing(piece);
        Seqs.Unit(Inked(Concat(Pieces(live, lines, n - 1, env))));
      }
    }
  }

  /** The pieces are the output of the machine on the whole text. */
  lemma {:induction false} PiecesOfRun(live: seq<bool>, lines: seq<seq<Token>>, n: nat, env: Env)
    requires n <= |lines|
    ensures Concat(Pieces(live, lines, n, env)) == Run(live, Concat(lines[..n]), env).1
  {
    hide Run;
    if n == 0 {
      assert lines[..0] == [];
      assert Run(live, [], env) == (live, "") by { RunNothing(live, env); }
    } else {
      PiecesOfRun(live, lines, n - 1, env);
      ConcatSnoc(lines, n - 1);
      RunSplit(live, Concat(lines[..n - 1]), lines[n - 1], env);
      ConcatOne(Pieces(live, lines, n - 1, env), LineRun(live, lines, n - 1, env).1);
    }
  }

  lemma RunNothing(live: seq<bool>, env: Env)
    ensures Run(live, [], env) == (live, "")
  {
  }

  function Concat<T>(lines: seq<seq<T>>): seq<T> {
    if lines == [] then [] else Concat(lines[..|lines| - 1]) + lines[|lines| - 1]
  }

  lemma ConcatSnoc<T>(lines: seq<seq<T>>, i: nat)
    requires i < |lines|
    ensures Concat(lines[..i + 1]) == Concat(lines[..i]) + lines[i]
  {
    assert lines[..i + 1][..i] == lines[..i];
  }

  lemma ConcatOne<T>(lines: seq<seq<T>>, line: seq<T>)
    ensures Concat(lines + [line]) == Concat(lines) + line
  {
    assert (lines + [line])[..|lines|] == lines;
  }

  /**
   * A list text with nested conditionals, however they are spread over lines: line by line, what is let through
   * adds up to the recursive meaning, and the lines returned are those pieces but for the ones omitted.
   */
  method RenderText(env: Env, lines: seq<seq<Token>>, ghost text: Block) returns (out: seq<string>)
    requires Concat(lines) == Flatten(text) && LiveEvaluable(text, true, env)
    ensures Concat(Pieces([], lines, |lines|, env)) == Meaning(text, env)
    ensures out == Kept([], lines, |lines|, env) && Inked(Concat(out)) == Inked(Meaning(text, env))
  {
    KeptInk([], lines, |lines|, env);
    var t := new ListText(env);
    out := t.ProcessLines(lines);
    RunMeaning([], text, env);
    PiecesOfRun([], lines, |lines|, env);
    assert lines[..|lines|] == lines;
  }
}
