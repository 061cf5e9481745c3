/** RapidJSON's iterative reader: a pushdown automaton driven by a table of states and tokens. */
module JsonMachine {
  import opened JsonStream
  import opened JsonReader

  datatype State =
    | Finish
    | Error
    | Start
    | ObjectInitial
    | MemberKey
    | MemberValue
    | ObjectFinish
    | ArrayInitial
    | Element
    | ArrayFinish
    | SingleValue
    | ElementDelimiter
    | MemberDelimiter
    | KeyValueDelimiter

  datatype Token =
    | LeftBracket
    | RightBracket
    | LeftCurlyBracket
    | RightCurlyBracket
    | Comma
    | Colon
    | StringToken
    | FalseToken
    | TrueToken
    | NullToken
    | NumberToken

  function Tokenize(c: char): Token {
    match c
    case '[' => LeftBracket
    case ']' => RightBracket
    case '{' => LeftCurlyBracket
    case '}' => RightCurlyBracket
    case ',' => Comma
    case ':' => Colon
    case '\"' => StringToken
    case 'f' => FalseToken
    case 't' => TrueToken
    case 'n' => NullToken
    case _ => NumberToken
  }

  /** The table: where a token leads, `leaf` being the state for a token that starts a value
      other than an array or an object. */
  function ValueRow(t: Token, leaf: State): State {
    match t
    case LeftBracket => ArrayInitial
    case LeftCurlyBracket => ObjectInitial
    case RightBracket => Error
    case RightCurlyBracket => Error
    case Comma => Error
    case Colon => Error
    case _ => leaf
  }

  function Predict(st: State, t: Token): State {
    match st
    case Start => ValueRow(t, SingleValue)
    case ObjectInitial => if t == RightCurlyBracket then ObjectFinish else if t == StringToken then MemberKey else Error
    case MemberKey => if t == Colon then KeyValueDelimiter else Error
    case MemberValue => if t == RightCurlyBracket then ObjectFinish else if t == Comma then MemberDelimiter else Error
    case ArrayInitial => if t == RightBracket then ArrayFinish else ValueRow(t, Element)
    case Element => if t == RightBracket then ArrayFinish else if t == Comma then ElementDelimiter else Error
    case ElementDelimiter => if t == RightBracket then ArrayFinish else ValueRow(t, Element)
    case MemberDelimiter =>
      if t == RightCurlyBracket then ObjectFinish else if t == StringToken then MemberKey else Error
    case KeyValueDelimiter => ValueRow(t, MemberValue)
    case _ => Error
  }

  /** What a bracket pushes: the state to resume behind the closing bracket, and the number of
      complete members or elements. */
  datatype Frame = Frame(resume: State, count: nat)

  datatype Machine = Machine(st: State, pos: nat, stack: seq<Frame>, evs: seq<Event>)

  datatype Step = Next(m: Machine) | Stop(o: Outcome)

  /** The stack is empty exactly outside of all brackets, and its bottom frame is the only one
      that resumes the start state. */
  predicate Balanced(st: State, stack: seq<Frame>) {
    && (stack == [] <==> st in {Start, Finish})
    && st !in {Error, ObjectFinish, ArrayFinish, SingleValue}
    && (forall i :: 0 <= i < |stack| ==>
          stack[i].resume in {Start, Element, MemberValue} && (i == 0 <==> stack[i].resume == Start))
  }

  /** The state that a closing bracket leads back to. */
  function Resumed(f: Frame): State {
    if f.resume == Start then Finish else f.resume
  }

  /** The state pushed by an opening bracket. */
  function Pushed(st: State): State {
    match st
    case ArrayInitial => Element
    case ElementDelimiter => Element
    case KeyValueDelimiter => MemberValue
    case _ => st
  }

  function Top(m: Machine): Frame
    requires m.stack != []
  {
    m.stack[|m.stack| - 1]
  }

  function Popped(m: Machine): seq<Frame>
    requires m.stack != []
  {
    m.stack[..|m.stack| - 1]
  }

  /** HandleError, for a state that met no error before. */
  function Unexpected(m: Machine): Outcome {
    Fail(match m.st
         case Start => DocumentEmpty
         case Finish => DocumentRootNotSingular
         case ObjectInitial => ObjectMissName
         case MemberDelimiter => ObjectMissName
         case MemberKey => ObjectMissColon
         case MemberValue => ObjectMissCommaOrCurlyBracket
         case Element => ArrayMissCommaOrSquareBracket
         case _ => ValueInvalid, m.pos, m.evs)
  }

  function Open(src: Source, m: Machine, dst: State): Step {
    var e := if dst == ObjectInitial then StartObject else StartArray;
    match Emit(src, m.evs, e, m.pos + 1, m.pos)
    case Ok(pos, evs) => Next(Machine(dst, pos, m.stack + [Frame(Pushed(m.st), 0)], evs))
    case o => Stop(o)
  }

  function Close(src: Source, m: Machine, dst: State): Step
    requires m.stack != []
  {
    var curly := dst == ObjectFinish;
    if !src.flags.trailingCommas && m.st == (if curly then MemberDelimiter else ElementDelimiter) then
      Stop(Fail(if curly then ObjectMissName else ValueInvalid, m.pos, m.evs))
    else
      var c := if m.st in {MemberValue, Element} then Count(Top(m).count) else Top(m).count;
      match Emit(src, m.evs, if curly then EndObject(c) else EndArray(c), m.pos + 1, m.pos)
      case Ok(pos, evs) => Next(Machine(Resumed(Top(m)), pos, Popped(m), evs))
      case o => Stop(o)
  }

  function Delimit(m: Machine, dst: State): Step
    requires m.stack != []
  {
    Next(Machine(dst, m.pos + 1, Popped(m) + [Top(m).(count := Count(Top(m).count))], m.evs))
  }

  function Take(m: Machine, dst: State, o: Outcome): Step {
    match o
    case Ok(pos, evs) => Next(Machine(dst, pos, m.stack, evs))
    case o => Stop(o)
  }

  /** Transit to the predicted state `dst`. */
  function Transit(src: Source, m: Machine, dst: State): (r: Step)
    requires m.pos < |src.text| && Balanced(m.st, m.stack) && dst == Predict(m.st, Tokenize(src.text[m.pos]))
    ensures r.Next? ==> m.pos < r.m.pos <= |src.text|
  {
    match dst
    case ObjectInitial => Open(src, m, dst)
    case ArrayInitial => Open(src, m, dst)
    case MemberKey => Take(m, dst, StringEvent(src, m.pos, m.evs, true))
    case KeyValueDelimiter => Next(Machine(dst, m.pos + 1, m.stack, m.evs))
    case MemberValue => Take(m, dst, Value(src, m.pos, m.evs))
    case Element => Take(m, dst, Value(src, m.pos, m.evs))
    case SingleValue => Take(m, Finish, Value(src, m.pos, m.evs))
    case MemberDelimiter => Delimit(m, dst)
    case ElementDelimiter => Delimit(m, dst)
    case ObjectFinish => Close(src, m, dst)
    case ArrayFinish => Close(src, m, dst)
    case _ => Stop(Unexpected(m))
  }

  /** The stack discipline is kept by every transition. */
  lemma TransitKeepsBalance(src: Source, m: Machine, dst: State)
    requires m.pos < |src.text| && Balanced(m.st, m.stack) && dst == Predict(m.st, Tokenize(src.text[m.pos]))
    requires Transit(src, m, dst).Next?
    ensures Balanced(Transit(src, m, dst).m.st, Transit(src, m, dst).m.stack)
  {
  }

  /** What the loop ends with, and the state that it was in then. */
  datatype Halted = Halted(outcome: Outcome, st: State)

  /** The loop of IterativeParse, from a position without white space in front. */
  function Run(src: Source, m: Machine): Halted
    requires m.pos <= |src.text| && Balanced(m.st, m.stack)
    decreases |src.text| - m.pos, 1
  {
    if Peek(src.text, m.pos) == '\0' then
      Halted(if m.st == Finish then Ok(m.pos, m.evs) else Unexpected(m), m.st)
    else
      var dst := Predict(m.st, Tokenize(src.text[m.pos]));
      match Transit(src, m, dst)
      case Stop(o) => Halted(o, m.st)
      case Next(m') =>
        TransitKeepsBalance(src, m, dst);
        Continue(src, m')
  }

  /** The end of the loop body. */
  function Continue(src: Source, m: Machine): Halted
    requires m.pos <= |src.text| && Balanced(m.st, m.stack)
    decreases |src.text| - m.pos, 2
  {
    if src.flags.stopWhenDone && m.st == Finish then Halted(Ok(m.pos, m.evs), m.st)
    else
      match SkipFrom(src, m.pos)
      case Broken(off) => Halted(Fail(UnspecificSyntaxError, off, m.evs), m.st)
      case At(q) => Run(src, m.(pos := q))
  }

  /** IterativeParse, with the state that its loop ends in. */
  function Halt(src: Source): Halted {
    match SkipFrom(src, 0)
    case Broken(off) => Halted(Fail(UnspecificSyntaxError, off, []), Start)
    case At(p) => Run(src, Machine(Start, p, [], []))
  }

  /** IterativeParse. */
  function IterativeParse(src: Source): Outcome {
    Halt(src).outcome
  }
}
