/** The table-driven reader does, step by step, what the recursive-descent one does. */
module JsonSimulation {
  import opened JsonStream
  import opened JsonReader
  import opened JsonMachine
  import JsonNumber
  import JsonString

  /** The last event is an opening bracket, or a closing one, the state being the one in which the machine
      met it, that did not come behind a trailing comma. */
  predicate TakenBracket(evs: seq<Event>, st: State) {
    evs != [] &&
    var e := evs[|evs| - 1];
    e.StartArray? || e.StartObject? ||
    ((e.EndArray? || e.EndObject?) && st != ElementDelimiter && st != MemberDelimiter)
  }

  /** The same failure, except that the recursive reader has taken such a bracket when the handler refuses
      it, and reports the refusal one character later. */
  predicate Agree(iterative: Halted, recursive: Outcome) {
    var i := iterative.outcome;
    i.Fail? && recursive.Fail? && i.code == recursive.code && i.evs == recursive.evs &&
    recursive.off == if i.code == Termination && TakenBracket(i.evs, iterative.st) then i.off + 1 else i.off
  }

  /** `run` is what the machine does from state `st` on with the recursive outcome `o`: it goes
      on behind what was read, or it stops in agreement. */
  predicate Matches(src: Source, run: Halted, st: State, stack: seq<Frame>, o: Outcome)
    requires Balanced(st, stack) && (o.Ok? ==> o.pos <= |src.text|)
  {
    if o.Ok? then run == Continue(src, Machine(st, o.pos, stack, o.evs)) else Agree(run, o)
  }

  /** The state behind a value that the given state expects. */
  function After(st: State): State {
    match st
    case ArrayInitial => Element
    case ElementDelimiter => Element
    case KeyValueDelimiter => MemberValue
    case _ => Finish
  }

  predicate ExpectsValue(st: State) {
    st in {Start, ArrayInitial, ElementDelimiter, KeyValueDelimiter}
  }

  predicate NoValue(c: char) {
    c == ']' || c == '}' || c == ',' || c == ':' || c == '\0'
  }

  /** Where no value starts, the recursive reader fails as on a number without digits. */
  lemma NoValueFails(src: Source, p: nat, evs: seq<Event>)
    requires p <= |src.text| && NoValue(Peek(src.text, p))
    ensures Value(src, p, evs) == Fail(ValueInvalid, p, evs)
  {
  }

  /** One turn of the machine's loop. */
  lemma RunStep(src: Source, m: Machine, dst: State, m': Machine)
    requires m.pos < |src.text| && Balanced(m.st, m.stack) && src.text[m.pos] != '\0'
    requires dst == Predict(m.st, Tokenize(src.text[m.pos]))
    requires Transit(src, m, dst) == Next(m')
    ensures Balanced(m'.st, m'.stack) && m.pos < m'.pos <= |src.text|
    ensures Run(src, m) == Continue(src, m')
  {
    hide Predict, Tokenize, Balanced, Continue, SkipFrom;
    TransitKeepsBalance(src, m, dst);
  }

  lemma RunStop(src: Source, m: Machine, dst: State, o: Outcome)
    requires m.pos < |src.text| && Balanced(m.st, m.stack) && src.text[m.pos] != '\0'
    requires dst == Predict(m.st, Tokenize(src.text[m.pos]))
    requires Transit(src, m, dst) == Stop(o)
    ensures Run(src, m) == Halted(o, m.st)
  {
    hide Predict, Tokenize, Balanced, Continue, SkipFrom, Transit;
  }

  /** The last event is no bracket. */
  predicate EndsFlat(evs: seq<Event>) {
    evs != [] &&
    var e := evs[|evs| - 1];
    !e.StartArray? && !e.StartObject? && !e.EndArray? && !e.EndObject?
  }

  lemma NumberIsFlat(src: Source, p: nat, evs: seq<Event>)
    requires p <= |src.text|
    ensures NumberEvent(src, p, evs).Fail? && NumberEvent(src, p, evs).code == Termination ==>
            EndsFlat(NumberEvent(src, p, evs).evs)
  {
    hide JsonNumber.NumberAt;
    if JsonNumber.NumberAt(src, p).Number? { JsonNumber.NumberKinds(src, p); }
  }

  lemma StringIsFlat(src: Source, p: nat, evs: seq<Event>, isKey: bool)
    requires p < |src.text|
    ensures var o := StringEvent(src, p, evs, isKey); o.Fail? && o.code == Termination ==> EndsFlat(o.evs)
  {
    hide JsonString.Scan;
  }

  /** Where the handler refuses a leaf, it refuses no bracket. */
  lemma LeafIsFlat(src: Source, p: nat, evs: seq<Event>)
    requires p < |src.text|
    ensures var o := Leaf(src, p, evs); o.Fail? && o.code == Termination ==> EndsFlat(o.evs)
  {
    hide NumberEvent, StringEvent, Word;
    NumberIsFlat(src, p, evs);
    StringIsFlat(src, p, evs, false);
  }

  /** A value that is neither an array nor an object takes one step. */
  lemma LeafSim(src: Source, m: Machine)
    requires m.pos < |src.text| && Balanced(m.st, m.stack) && ExpectsValue(m.st)
    requires !NoValue(src.text[m.pos]) && src.text[m.pos] != '[' && src.text[m.pos] != '{'
    ensures Balanced(After(m.st), m.stack)
    ensures Matches(src, Run(src, m), After(m.st), m.stack, Value(src, m.pos, m.evs))
  {
    hide Leaf, Run, Continue, Value;
    var dst := Predict(m.st, Tokenize(src.text[m.pos]));
    ValueIsLeaf(src, m.pos, m.evs);
    LeafIsFlat(src, m.pos, m.evs);
    match Value(src, m.pos, m.evs) {
      case Ok(q, evs) => RunStep(src, m, dst, Machine(After(m.st), q, m.stack, evs));
      case Fail(code, off, evs) => RunStop(src, m, dst, Fail(code, off, evs));
    }
  }

  lemma ValueIsLeaf(src: Source, p: nat, evs: seq<Event>)
    requires p < |src.text| && src.text[p] != '[' && src.text[p] != '{'
    ensures Value(src, p, evs) == Leaf(src, p, evs)
  {
  }

  lemma BalancedPop(m: Machine)
    requires Balanced(m.st, m.stack) && m.st !in {Start, Finish}
    ensures m.stack != [] && Balanced(Resumed(Top(m)), Popped(m))
  {
  }

  lemma BalancedPush(m: Machine, dst: State)
    requires Balanced(m.st, m.stack) && ExpectsValue(m.st) && dst in {ArrayInitial, ObjectInitial}
    ensures Balanced(After(m.st), m.stack)
    ensures Balanced(dst, m.stack + [Frame(Pushed(m.st), 0)])
    ensures Resumed(Frame(Pushed(m.st), 0)) == After(m.st)
  {
  }

  /** The state inside the brackets that `closing` ends. */
  predicate Closes(closing: char, st: State, trailing: bool) {
    if closing == ']' then st in {ArrayInitial, Element} || (st == ElementDelimiter && trailing)
    else closing == '}' && (st in {ObjectInitial, MemberValue} || (st == MemberDelimiter && trailing))
  }

  function Closed(m: Machine, closing: char): Event
    requires m.stack != []
  {
    var c := if m.st in {MemberValue, Element} then Count(Top(m).count) else Top(m).count;
    if closing == ']' then EndArray(c) else EndObject(c)
  }

  /** A closing bracket. The recursive reader may have taken it before it calls the handler. */
  lemma CloseSim(src: Source, m: Machine, off: nat)
    requires m.pos < |src.text| && Balanced(m.st, m.stack) && m.stack != []
    requires Closes(src.text[m.pos], m.st, src.flags.trailingCommas)
    requires off == if m.st == ElementDelimiter || m.st == MemberDelimiter then m.pos else m.pos + 1
    ensures Balanced(Resumed(Top(m)), Popped(m))
    ensures Matches(src, Run(src, m), Resumed(Top(m)), Popped(m),
                    Emit(src, m.evs, Closed(m, src.text[m.pos]), m.pos + 1, off))
  {
    hide Run, Continue;
    BalancedPop(m);
    var dst := Predict(m.st, Tokenize(src.text[m.pos]));
    match Emit(src, m.evs, Closed(m, src.text[m.pos]), m.pos + 1, m.pos) {
      case Ok(q, evs) => RunStep(src, m, dst, Machine(Resumed(Top(m)), q, Popped(m), evs));
      case Fail(code, at, evs) => RunStop(src, m, dst, Fail(code, at, evs));
    }
  }

  /** An opening bracket, and the white space behind it. */
  lemma OpenSim(src: Source, m: Machine, dst: State)
    requires m.pos < |src.text| && Balanced(m.st, m.stack) && ExpectsValue(m.st)
    requires dst == (if src.text[m.pos] == '[' then ArrayInitial else ObjectInitial)
    requires src.text[m.pos] == '[' || src.text[m.pos] == '{'
    ensures Balanced(After(m.st), m.stack) && Balanced(dst, m.stack + [Frame(Pushed(m.st), 0)])
    ensures
      var e := if dst == ArrayInitial then StartArray else StartObject;
      var evs := m.evs + [e];
      if !src.accepts(evs) then Run(src, m) == Halted(Fail(Termination, m.pos, evs), m.st)
      else Run(src, m) == Continue(src, Machine(dst, m.pos + 1, m.stack + [Frame(Pushed(m.st), 0)], evs))
  {
    hide Run, Continue;
    BalancedPush(m, dst);
    var e := if dst == ArrayInitial then StartArray else StartObject;
    match Emit(src, m.evs, e, m.pos + 1, m.pos) {
      case Ok(q, evs) => RunStep(src, m, dst, Machine(dst, q, m.stack + [Frame(Pushed(m.st), 0)], evs));
      case Fail(code, at, evs) => RunStop(src, m, dst, Fail(code, at, evs));
    }
  }

  /** A comma inside brackets. */
  lemma CommaSim(src: Source, m: Machine)
    requires m.pos < |src.text| && Balanced(m.st, m.stack) && m.st in {Element, MemberValue}
    requires src.text[m.pos] == ','
    ensures
      var dst := if m.st == Element then ElementDelimiter else MemberDelimiter;
      var stack := Popped(m) + [Top(m).(count := Count(Top(m).count))];
      && Balanced(dst, stack)
      && Run(src, m) == Continue(src, Machine(dst, m.pos + 1, stack, m.evs))
  {
    hide Run, Continue;
    var dst := if m.st == Element then ElementDelimiter else MemberDelimiter;
    RunStep(src, m, dst, Machine(dst, m.pos + 1, Popped(m) + [Top(m).(count := Count(Top(m).count))], m.evs));
  }

  /** A character that the state has no use for, or the end of the text. */
  lemma UnexpectedSim(src: Source, m: Machine)
    requires m.pos <= |src.text| && Balanced(m.st, m.stack)
    requires if Peek(src.text, m.pos) == '\0' then m.st != Finish
             else Predict(m.st, Tokenize(Peek(src.text, m.pos))) == Error
    ensures Run(src, m) == Halted(Unexpected(m), m.st)
  {
    if Peek(src.text, m.pos) != '\0' {
      RunStop(src, m, Error, Unexpected(m));
    }
  }

  /** The main simulation: from a state that expects a value, the machine does what ParseValue
      does, leaving its stack alone. */
  lemma {:induction false} ValueSim(src: Source, m: Machine)
    requires m.pos < |src.text| && Balanced(m.st, m.stack) && ExpectsValue(m.st)
    requires !NoValue(src.text[m.pos])
    ensures Balanced(After(m.st), m.stack)
    ensures Matches(src, Run(src, m), After(m.st), m.stack, Value(src, m.pos, m.evs))
    decreases |src.text| - m.pos, 1
  {
    hide *;
    if src.text[m.pos] == '[' {
      ArraySim(src, m);
    } else if src.text[m.pos] == '{' {
      ObjectSim(src, m);
    } else {
      LeafSim(src, m);
    }
  }

  lemma {:induction false} ArraySim(src: Source, m: Machine)
    requires m.pos < |src.text| && Balanced(m.st, m.stack) && ExpectsValue(m.st) && src.text[m.pos] == '['
    ensures Balanced(After(m.st), m.stack)
    ensures Matches(src, Run(src, m), After(m.st), m.stack, Value(src, m.pos, m.evs))
    decreases |src.text| - m.pos, 0
  {
    hide Run, Elements, SkipFrom, Transit, Balanced, Resumed, Pushed, Emit;
    BalancedPush(m, ArrayInitial);
    OpenSim(src, m, ArrayInitial);
    var start := m.evs + [StartArray];
    if src.accepts(start) {
      match SkipFrom(src, m.pos + 1) {
        case Broken(off) =>
        case At(q) =>
          var m' := Machine(ArrayInitial, q, m.stack + [Frame(Pushed(m.st), 0)], start);
          assert Popped(m') == m.stack;
          ArrayInside(src, m');
      }
    }
  }

  /** Behind the opening bracket. */
  lemma {:induction false} ArrayInside(src: Source, m: Machine)
    requires m.pos <= |src.text| && Balanced(m.st, m.stack) && m.st == ArrayInitial && Top(m).count == 0
    ensures Balanced(Resumed(Top(m)), Popped(m))
    ensures Matches(src, Run(src, m), Resumed(Top(m)), Popped(m),
              if Peek(src.text, m.pos) == ']' then Emit(src, m.evs, EndArray(0), m.pos + 1, m.pos + 1)
              else Elements(src, m.pos, 0, m.evs))
    decreases |src.text| - m.pos, 4
  {
    hide Run, Elements, Balanced, Resumed;
    BalancedPop(m);
    if Peek(src.text, m.pos) == ']' {
      CloseSim(src, m, m.pos + 1);
    } else {
      ElementsSim(src, m);
    }
  }

  lemma {:induction false} ElementsSim(src: Source, m: Machine)
    requires m.pos <= |src.text| && Balanced(m.st, m.stack) && m.st in {ArrayInitial, ElementDelimiter}
    requires Peek(src.text, m.pos) == ']' ==> m.st == ElementDelimiter && !src.flags.trailingCommas
    ensures Balanced(Resumed(Top(m)), Popped(m))
    ensures Matches(src, Run(src, m), Resumed(Top(m)), Popped(m), Elements(src, m.pos, Top(m).count, m.evs))
    decreases |src.text| - m.pos, 3
  {
    hide *;
    BalancedPop(m);
    if NoValue(Peek(src.text, m.pos)) {
      MissingElement(src, m);
    } else {
      ElementSim(src, m);
    }
  }

  lemma MissingElement(src: Source, m: Machine)
    requires m.pos <= |src.text| && Balanced(m.st, m.stack) && m.st in {ArrayInitial, ElementDelimiter}
    requires Peek(src.text, m.pos) == ']' ==> m.st == ElementDelimiter && !src.flags.trailingCommas
    requires NoValue(Peek(src.text, m.pos))
    ensures Balanced(Resumed(Top(m)), Popped(m))
    ensures Matches(src, Run(src, m), Resumed(Top(m)), Popped(m), Elements(src, m.pos, Top(m).count, m.evs))
  {
    hide Run, Continue, Value;
    BalancedPop(m);
    NoValueFails(src, m.pos, m.evs);
    if Peek(src.text, m.pos) == ']' {
      RunStop(src, m, ArrayFinish, Fail(ValueInvalid, m.pos, m.evs));
    } else {
      UnexpectedSim(src, m);
    }
  }

  lemma {:induction false} ElementSim(src: Source, m: Machine)
    requires m.pos <= |src.text| && Balanced(m.st, m.stack) && m.st in {ArrayInitial, ElementDelimiter}
    requires !NoValue(Peek(src.text, m.pos))
    ensures Balanced(Resumed(Top(m)), Popped(m))
    ensures Matches(src, Run(src, m), Resumed(Top(m)), Popped(m), Elements(src, m.pos, Top(m).count, m.evs))
    decreases |src.text| - m.pos, 2
  {
    hide Run, Continue, Value, AfterElement, Resumed, Balanced;
    BalancedPop(m);
    ValueSim(src, m);
    match Value(src, m.pos, m.evs) {
      case Fail(code, off, evs) =>
      case Ok(q, evs) => AfterElementSim(src, Machine(Element, q, m.stack, evs));
    }
  }

  lemma {:induction false} AfterElementSim(src: Source, m: Machine)
    requires m.pos <= |src.text| && Balanced(m.st, m.stack) && m.st == Element
    ensures Balanced(Resumed(Top(m)), Popped(m))
    ensures Matches(src, Continue(src, m), Resumed(Top(m)), Popped(m),
                    AfterElement(src, m.pos, Count(Top(m).count), m.evs))
    decreases |src.text| - m.pos, 4
  {
    hide Run, Elements, SkipFrom, Resumed, Emit;
    BalancedPop(m);
    match SkipFrom(src, m.pos) {
      case Broken(off) =>
      case At(c) =>
        var m1 := m.(pos := c);
        if Peek(src.text, c) == ',' {
          AfterComma(src, m1);
        } else if Peek(src.text, c) == ']' {
          CloseSim(src, m1, c + 1);
        } else {
          UnexpectedSim(src, m1);
        }
    }
  }

  /** Behind the comma at `m.pos`. */
  lemma {:induction false} AfterComma(src: Source, m: Machine)
    requires m.pos < |src.text| && Balanced(m.st, m.stack) && m.st == Element && src.text[m.pos] == ','
    ensures Balanced(Resumed(Top(m)), Popped(m))
    ensures
      var n := Count(Top(m).count);
      Matches(src, Run(src, m), Resumed(Top(m)), Popped(m),
        match SkipFrom(src, m.pos + 1)
        case Broken(off) => Fail(UnspecificSyntaxError, off, m.evs)
        case At(t) =>
          if src.flags.trailingCommas && Peek(src.text, t) == ']' then Emit(src, m.evs, EndArray(n), t + 1, t)
          else Elements(src, t, n, m.evs))
    decreases |src.text| - m.pos, 0
  {
    hide Run, Elements, SkipFrom, Emit;
    BalancedPop(m);
    CommaSim(src, m);
    var n := Count(Top(m).count);
    match SkipFrom(src, m.pos + 1) {
      case Broken(off) =>
      case At(t) =>
        var m' := Machine(ElementDelimiter, t, Popped(m) + [Top(m).(count := n)], m.evs);
        assert Popped(m') == Popped(m) && Resumed(Top(m')) == Resumed(Top(m));
        if src.flags.trailingCommas && Peek(src.text, t) == ']' {
          CloseSim(src, m', t);
        } else {
          ElementsSim(src, m');
        }
    }
  }

  lemma {:induction false} ObjectSim(src: Source, m: Machine)
    requires m.pos < |src.text| && Balanced(m.st, m.stack) && ExpectsValue(m.st) && src.text[m.pos] == '{'
    ensures Balanced(After(m.st), m.stack)
    ensures Matches(src, Run(src, m), After(m.st), m.stack, Value(src, m.pos, m.evs))
    decreases |src.text| - m.pos, 0
  {
    hide Run, Members, SkipFrom, Transit, Balanced, Resumed, Pushed, Emit;
    BalancedPush(m, ObjectInitial);
    OpenSim(src, m, ObjectInitial);
    var start := m.evs + [StartObject];
    if src.accepts(start) {
      match SkipFrom(src, m.pos + 1) {
        case Broken(off) =>
        case At(q) =>
          var m' := Machine(ObjectInitial, q, m.stack + [Frame(Pushed(m.st), 0)], start);
          assert Popped(m') == m.stack;
          ObjectInside(src, m');
      }
    }
  }

  /** Behind the opening brace. */
  lemma {:induction false} ObjectInside(src: Source, m: Machine)
    requires m.pos <= |src.text| && Balanced(m.st, m.stack) && m.st == ObjectInitial && Top(m).count == 0
    ensures Balanced(Resumed(Top(m)), Popped(m))
    ensures Matches(src, Run(src, m), Resumed(Top(m)), Popped(m),
              if Peek(src.text, m.pos) == '}' then Emit(src, m.evs, EndObject(0), m.pos + 1, m.pos + 1)
              else Members(src, m.pos, 0, m.evs))
    decreases |src.text| - m.pos, 4
  {
    hide Run, Members, Balanced, Resumed;
    BalancedPop(m);
    if Peek(src.text, m.pos) == '}' {
      CloseSim(src, m, m.pos + 1);
    } else {
      MembersSim(src, m);
    }
  }

  lemma {:induction false} MembersSim(src: Source, m: Machine)
    requires m.pos <= |src.text| && Balanced(m.st, m.stack) && m.st in {ObjectInitial, MemberDelimiter}
    requires Peek(src.text, m.pos) == '}' ==> m.st == MemberDelimiter && !src.flags.trailingCommas
    ensures Balanced(Resumed(Top(m)), Popped(m))
    ensures Matches(src, Run(src, m), Resumed(Top(m)), Popped(m), Members(src, m.pos, Top(m).count, m.evs))
    decreases |src.text| - m.pos, 3
  {
    hide Run, Continue, Members, Balanced;
    BalancedPop(m);
    if Peek(src.text, m.pos) == '\"' {
      KeySim(src, m);
    } else {
      MissingName(src, m);
    }
  }

  lemma MissingName(src: Source, m: Machine)
    requires m.pos <= |src.text| && Balanced(m.st, m.stack) && m.st in {ObjectInitial, MemberDelimiter}
    requires Peek(src.text, m.pos) == '}' ==> m.st == MemberDelimiter && !src.flags.trailingCommas
    requires Peek(src.text, m.pos) != '\"'
    ensures Balanced(Resumed(Top(m)), Popped(m))
    ensures Matches(src, Run(src, m), Resumed(Top(m)), Popped(m), Members(src, m.pos, Top(m).count, m.evs))
  {
    hide Run, Continue, Value;
    BalancedPop(m);
    if Peek(src.text, m.pos) == '}' {
      RunStop(src, m, ObjectFinish, Fail(ObjectMissName, m.pos, m.evs));
    } else {
      UnexpectedSim(src, m);
    }
  }

  lemma KeyTransit(src: Source, m: Machine)
    requires m.pos < |src.text| && Balanced(m.st, m.stack) && m.st in {ObjectInitial, MemberDelimiter}
    requires src.text[m.pos] == '\"'
    ensures Predict(m.st, Tokenize(src.text[m.pos])) == MemberKey
    ensures Transit(src, m, MemberKey) == Take(m, MemberKey, StringEvent(src, m.pos, m.evs, true))
  {
    hide StringEvent;
  }

  /** The name of a member. */
  lemma {:induction false} KeySim(src: Source, m: Machine)
    requires m.pos < |src.text| && Balanced(m.st, m.stack) && m.st in {ObjectInitial, MemberDelimiter}
    requires src.text[m.pos] == '\"'
    ensures Balanced(Resumed(Top(m)), Popped(m))
    ensures Matches(src, Run(src, m), Resumed(Top(m)), Popped(m), Members(src, m.pos, Top(m).count, m.evs))
    decreases |src.text| - m.pos, 2
  {
    hide Run, ValueOfMember, SkipFrom, Resumed, Emit, StringEvent, Transit, Predict, Tokenize;
    BalancedPop(m);
    KeyTransit(src, m);
    StringIsFlat(src, m.pos, m.evs, true);
    match StringEvent(src, m.pos, m.evs, true) {
      case Fail(code, off, evs) => RunStop(src, m, MemberKey, Fail(code, off, evs));
      case Ok(q, evs) =>
        RunStep(src, m, MemberKey, Machine(MemberKey, q, m.stack, evs));
        match SkipFrom(src, q) {
          case Broken(off) =>
          case At(c) => ColonSim(src, Machine(MemberKey, c, m.stack, evs));
        }
    }
  }

  /** The colon, the value and all that follows. */
  lemma {:induction false} ColonSim(src: Source, m: Machine)
    requires m.pos <= |src.text| && Balanced(m.st, m.stack) && m.st == MemberKey
    ensures Balanced(Resumed(Top(m)), Popped(m))
    ensures Matches(src, Run(src, m), Resumed(Top(m)), Popped(m),
      if Peek(src.text, m.pos) != ':' then Fail(ObjectMissColon, m.pos, m.evs)
      else
        match SkipFrom(src, m.pos + 1)
        case Broken(off) => Fail(UnspecificSyntaxError, off, m.evs)
        case At(v) => ValueOfMember(src, v, Top(m).count, m.evs))
    decreases |src.text| - m.pos, 0
  {
    hide Run, ValueOfMember, SkipFrom, Resumed;
    BalancedPop(m);
    if Peek(src.text, m.pos) != ':' {
      UnexpectedSim(src, m);
    } else {
      RunStep(src, m, KeyValueDelimiter, Machine(KeyValueDelimiter, m.pos + 1, m.stack, m.evs));
      match SkipFrom(src, m.pos + 1) {
        case Broken(off) =>
        case At(v) => MemberValueSim(src, Machine(KeyValueDelimiter, v, m.stack, m.evs));
      }
    }
  }

  lemma {:induction false} MemberValueSim(src: Source, m: Machine)
    requires m.pos <= |src.text| && Balanced(m.st, m.stack) && m.st == KeyValueDelimiter
    ensures Balanced(Resumed(Top(m)), Popped(m))
    ensures Matches(src, Run(src, m), Resumed(Top(m)), Popped(m), ValueOfMember(src, m.pos, Top(m).count, m.evs))
    decreases |src.text| - m.pos, 2
  {
    hide Run, Continue, Value, AfterMember, Resumed;
    BalancedPop(m);
    if NoValue(Peek(src.text, m.pos)) {
      NoValueFails(src, m.pos, m.evs);
      UnexpectedSim(src, m);
    } else {
      ValueSim(src, m);
      match Value(src, m.pos, m.evs) {
        case Fail(code, off, evs) =>
        case Ok(q, evs) => AfterMemberSim(src, Machine(MemberValue, q, m.stack, evs));
      }
    }
  }

  lemma {:induction false} AfterMemberSim(src: Source, m: Machine)
    requires m.pos <= |src.text| && Balanced(m.st, m.stack) && m.st == MemberValue
    ensures Balanced(Resumed(Top(m)), Popped(m))
    ensures Matches(src, Continue(src, m), Resumed(Top(m)), Popped(m),
                    AfterMember(src, m.pos, Count(Top(m).count), m.evs))
    decreases |src.text| - m.pos, 4
  {
    hide Run, Members, SkipFrom, Resumed, Emit;
    BalancedPop(m);
    match SkipFrom(src, m.pos) {
      case Broken(off) =>
      case At(c) =>
        var m1 := m.(pos := c);
        if Peek(src.text, c) == ',' {
          AfterMemberComma(src, m1);
        } else if Peek(src.text, c) == '}' {
          CloseSim(src, m1, c + 1);
        } else {
          UnexpectedSim(src, m1);
        }
    }
  }

  /** Behind the comma at `m.pos`. */
  lemma {:induction false} AfterMemberComma(src: Source, m: Machine)
    requires m.pos < |src.text| && Balanced(m.st, m.stack) && m.st == MemberValue && src.text[m.pos] == ','
    ensures Balanced(Resumed(Top(m)), Popped(m))
    ensures
      var n := Count(Top(m).count);
      Matches(src, Run(src, m), Resumed(Top(m)), Popped(m),
        match SkipFrom(src, m.pos + 1)
        case Broken(off) => Fail(UnspecificSyntaxError, off, m.evs)
        case At(t) =>
          if src.flags.trailingCommas && Peek(src.text, t) == '}' then Emit(src, m.evs, EndObject(n), t + 1, t)
          else Members(src, t, n, m.evs))
    decreases |src.text| - m.pos, 0
  {
    hide Run, Members, SkipFrom, Emit;
    BalancedPop(m);
    CommaSim(src, m);
    var n := Count(Top(m).count);
    match SkipFrom(src, m.pos + 1) {
      case Broken(off) =>
      case At(t) =>
        var m' := Machine(MemberDelimiter, t, Popped(m) + [Top(m).(count := n)], m.evs);
        assert Popped(m') == Popped(m) && Resumed(Top(m')) == Resumed(Top(m));
        if src.flags.trailingCommas && Peek(src.text, t) == '}' {
          CloseSim(src, m', t);
        } else {
          MembersSim(src, m');
        }
    }
  }

  /** Behind the root value. */
  lemma RootSim(src: Source, m: Machine)
    requires m.pos <= |src.text| && m.st == Finish && m.stack == []
    ensures Continue(src, m).outcome ==
      if src.flags.stopWhenDone then Ok(m.pos, m.evs)
      else match SkipFrom(src, m.pos)
        case Broken(off) => Fail(UnspecificSyntaxError, off, m.evs)
        case At(end) =>
          if Peek(src.text, end) != '\0' then Fail(DocumentRootNotSingular, end, m.evs) else Ok(end, m.evs)
  {
    hide SkipFrom;
    if !src.flags.stopWhenDone && SkipFrom(src, m.pos).At? {
      var m' := m.(pos := SkipFrom(src, m.pos).pos);
      if Peek(src.text, m'.pos) != '\0' {
        RunStop(src, m', Error, Unexpected(m'));
      }
    }
  }
}
