/** GenericReader as an object: a cursor into the text, the events sent to the handler, the parse
    result and the stack. Its methods are proved to compute the functions of JsonReader and
    JsonMachine, so what is proved of those holds of them. */
module JsonReaderClass {
  import opened Common
  import opened JsonStream
  import opened JsonReader
  import opened JsonMachine
  import JsonNumberReader
  import JsonString
  import JsonReadersAgree
  import JsonSimulation

  datatype ParseError = ParseError(code: ErrorCode, off: nat)

  class Reader {
    const src: Source
    var pos: nat
    var evs: seq<Event>
    var error: Option<ParseError>
    var stack: seq<Frame>

    constructor (src: Source)
      ensures this.src == src && Good() && pos == 0 && evs == [] && stack == []
    {
      this.src := src;
      pos, evs, error, stack := 0, [], None, [];
    }

    /** The cursor is inside the text and no error has occurred. */
    ghost predicate Good()
      reads this
    {
      pos <= |src.text| && error == None
    }

    /** Where the reader stands, as the outcome of the functions. */
    ghost function Report(): Outcome
      reads this
    {
      match error
      case None => Ok(pos, evs)
      case Some(e) => Fail(e.code, e.off, evs)
    }

    function Next(): char
      reads this
    {
      Peek(src.text, pos)
    }

    method SetParseError(code: ErrorCode, off: nat)
      modifies this`error
      ensures error == Some(ParseError(code, off))
    {
      error := Some(ParseError(code, off));
    }

    method Consume(wanted: char) returns (taken: bool)
      requires Good() && wanted != '\0'
      modifies this`pos
      ensures taken == (old(Next()) == wanted)
      ensures pos == old(pos) + (if taken then 1 else 0) <= |src.text|
    {
      taken := Next() == wanted;
      if taken { pos := pos + 1; }
    }

    /** Send an event; the answer is the handler's. */
    method Handle(e: Event) returns (ok: bool)
      modifies this`evs
      ensures evs == old(evs) + [e] && ok == src.accepts(evs)
    {
      evs := evs + [e];
      ok := src.accepts(evs);
    }

    // ---- white space and comments -----------------------------------------------------------

    method SkipWhitespace()
      requires Good()
      modifies this`pos
      ensures pos == SkipSpace(src.text, old(pos))
    {
      while IsSpace(Next())
        invariant old(pos) <= pos <= |src.text| && SkipSpace(src.text, pos) == SkipSpace(src.text, old(pos))
        decreases |src.text| - pos
      {
        pos := pos + 1;
      }
    }

    method SkipWhitespaceAndComments()
      requires Good()
      modifies this`pos, this`error
      ensures match SkipFrom(src, old(pos))
              case At(q) => Good() && pos == q
              case Broken(off) => error == Some(ParseError(UnspecificSyntaxError, off))
    {
      hide SkipComments, SkipSpace;
      SkipWhitespace();
      if src.flags.comments {
        var slash := Consume('/');
        while slash
          invariant Good() && (slash ==> pos > 0 && src.text[pos - 1] == '/') && (!slash ==> Next() != '/')
          invariant SkipFrom(src, old(pos)) == SkipComments(src.text, if slash then pos - 1 else pos)
          decreases |src.text| - pos, slash
        {
          SkipComment();
          if error.Some? { return; }
          slash := Consume('/');
        }
        NoComment(src.text, pos);
      }
    }

    /** The comment whose first slash was just taken, and the white space behind it. */
    method SkipComment()
      requires Good() && pos > 0 && src.text[pos - 1] == '/'
      modifies this`pos, this`error
      ensures match error
              case None => Good() && pos > old(pos) &&
                   SkipComments(src.text, old(pos) - 1) == SkipComments(src.text, pos)
              case Some(e) => e.code == UnspecificSyntaxError && SkipComments(src.text, old(pos) - 1) == Broken(e.off)
    {
      var block := Consume('*');
      if block {
        SkipBlock();
        if error.Some? { return; }
      } else {
        var line := Consume('/');
        if line {
          SkipLine();
        } else {
          SetParseError(UnspecificSyntaxError, pos);
          return;
        }
      }
      SkipWhitespace();
    }

    method SkipBlock()
      requires Good()
      modifies this`pos, this`error
      ensures match BlockEnd(src.text, old(pos))
              case At(q) => Good() && pos == q
              case Broken(off) => error == Some(ParseError(UnspecificSyntaxError, off))
    {
      while true
        invariant Good() && BlockEnd(src.text, pos) == BlockEnd(src.text, old(pos))
        decreases |src.text| - pos
      {
        if Next() == '\0' {
          SetParseError(UnspecificSyntaxError, pos);
          return;
        }
        var star := Consume('*');
        if star {
          var slash := Consume('/');
          if slash { return; }
        } else {
          pos := pos + 1;
        }
      }
    }

    method SkipLine()
      requires Good()
      modifies this`pos
      ensures pos == LineEnd(src.text, old(pos))
    {
      var newline := false;
      while Next() != '\0' && !newline
        invariant Good()
        invariant if newline then pos == LineEnd(src.text, old(pos))
                  else LineEnd(src.text, pos) == LineEnd(src.text, old(pos))
        decreases |src.text| - pos
      {
        newline := Next() == '\n';
        pos := pos + 1;
      }
    }

    // ---- the recursive reader ---------------------------------------------------------------

    method ParseWord(word: string, e: Event)
      requires Good() && '\0' !in word
      modifies this`pos, this`evs, this`error
      ensures Report() == WordEvent(src, old(pos), old(evs), word, e)
    {
      var matched := 0;
      while matched < |word|
        invariant matched <= |word| && Good() && evs == old(evs) && pos == old(pos) + matched
        invariant Word(src.text, old(pos), word, matched) == Word(src.text, old(pos), word, 0)
      {
        var same := Consume(word[matched]);
        if !same {
          SetParseError(ValueInvalid, pos);
          return;
        }
        matched := matched + 1;
      }
      assert Word(src.text, old(pos), word, 0) == Place.At(pos);
      var ok := Handle(e);
      if !ok { SetParseError(Termination, pos); }
    }

    method ParseString(isKey: bool)
      requires Good() && pos < |src.text|
      modifies this`pos, this`evs, this`error
      ensures Report() == StringEvent(src, old(pos), old(evs), isKey)
    {
      var r := JsonString.ParseString(src.text, pos + 1, src.flags.escapedApostrophe);
      match r {
        case BadString(code, off) => SetParseError(code, off);
        case Scanned(text, end) =>
          pos := end;
          var ok := Handle(if isKey then Key(text) else String(text));
          if !ok { SetParseError(Termination, pos); }
      }
    }

    method ParseNumber()
      requires Good()
      modifies this`pos, this`evs, this`error
      ensures Report() == NumberEvent(src, old(pos), old(evs))
    {
      var start := pos;
      var r := JsonNumberReader.ParseNumber(src, pos);
      match r {
        case NotNumber(code, off) => SetParseError(code, off);
        case Number(e, end) =>
          pos := end;
          var ok := Handle(e);
          if !ok { SetParseError(Termination, start); }
      }
    }

    method ParseValue()
      requires Good()
      modifies this`pos, this`evs, this`error
      ensures Report() == Value(src, old(pos), old(evs))
      decreases |src.text| - pos, 2
    {
      match Next() {
        case 'n' => ParseWord("null", Null);
        case 't' => ParseWord("true", Bool(true));
        case 'f' => ParseWord("false", Bool(false));
        case '\"' => ParseString(false);
        case '{' => ParseObject();
        case '[' => ParseArray();
        case _ => ParseNumber();
      }
    }

    method ParseArray()
      requires Good() && Next() == '['
      modifies this`pos, this`evs, this`error
      ensures Report() == Array(src, old(pos), old(evs))
      decreases |src.text| - pos, 1
    {
      hide Value, Skip, AfterElement;
      pos := pos + 1;
      var ok := Handle(StartArray);
      if !ok {
        SetParseError(Termination, pos);
        return;
      }
      SkipWhitespaceAndComments();
      if error.Some? { return; }
      var closed := Consume(']');
      if closed {
        ok := Handle(EndArray(0));
        if !ok { SetParseError(Termination, pos); }
        return;
      }
      var elementCount := 0;
      while true
        invariant Good() && pos > old(pos)
        invariant Array(src, old(pos), old(evs)) == Elements(src, pos, elementCount, evs)
        decreases |src.text| - pos
      {
        ParseValue();
        if error.Some? { return; }
        elementCount := Count(elementCount);
        var more := EndElement(elementCount);
        if !more { return; }
      }
    }

    /** The part of ParseArray's loop behind an element: whether another element follows. */
    method EndElement(elementCount: nat) returns (more: bool)
      requires Good()
      modifies this`pos, this`evs, this`error
      ensures more ==> Good() && pos > old(pos)
      ensures AfterElement(src, old(pos), elementCount, old(evs)) ==
        if more then Elements(src, pos, elementCount, evs) else Report()
    {
      hide Elements, Skip;
      more := false;
      SkipWhitespaceAndComments();
      if error.Some? { return; }
      var comma := Consume(',');
      if comma {
        SkipWhitespaceAndComments();
        if error.Some? { return; }
        if src.flags.trailingCommas && Next() == ']' {
          var ok := Handle(EndArray(elementCount));
          if !ok { SetParseError(Termination, pos); } else { pos := pos + 1; }
          return;
        }
        more := true;
      } else {
        var closed := Consume(']');
        if closed {
          var ok := Handle(EndArray(elementCount));
          if !ok { SetParseError(Termination, pos); }
        } else {
          SetParseError(ArrayMissCommaOrSquareBracket, pos);
        }
      }
    }

    method ParseObject()
      requires Good() && Next() == '{'
      modifies this`pos, this`evs, this`error
      ensures Report() == Object(src, old(pos), old(evs))
      decreases |src.text| - pos, 1
    {
      hide Value, Skip, StringEvent, AfterMember;
      pos := pos + 1;
      var ok := Handle(StartObject);
      if !ok {
        SetParseError(Termination, pos);
        return;
      }
      SkipWhitespaceAndComments();
      if error.Some? { return; }
      var closed := Consume('}');
      if closed {
        ok := Handle(EndObject(0));
        if !ok { SetParseError(Termination, pos); }
        return;
      }
      var memberCount := 0;
      while true
        invariant Good() && pos > old(pos)
        invariant Object(src, old(pos), old(evs)) == Members(src, pos, memberCount, evs)
        decreases |src.text| - pos
      {
        ParseMember(memberCount);
        if error.Some? { return; }
        memberCount := Count(memberCount);
        var more := EndMember(memberCount);
        if !more { return; }
      }
    }

    /** The part of ParseObject's loop behind a member: whether another member follows. */
    method EndMember(memberCount: nat) returns (more: bool)
      requires Good()
      modifies this`pos, this`evs, this`error
      ensures more ==> Good() && pos > old(pos)
      ensures AfterMember(src, old(pos), memberCount, old(evs)) ==
        if more then Members(src, pos, memberCount, evs) else Report()
    {
      hide Members, Skip;
      more := false;
      SkipWhitespaceAndComments();
      if error.Some? { return; }
      match Next() {
        case ',' =>
          pos := pos + 1;
          SkipWhitespaceAndComments();
          if error.Some? { return; }
          if src.flags.trailingCommas && Next() == '}' {
            var ok := Handle(EndObject(memberCount));
            if !ok { SetParseError(Termination, pos); } else { pos := pos + 1; }
            return;
          }
          more := true;
        case '}' =>
          pos := pos + 1;
          var ok := Handle(EndObject(memberCount));
          if !ok { SetParseError(Termination, pos); }
        case _ =>
          SetParseError(ObjectMissCommaOrCurlyBracket, pos);
      }
    }

    /** The part of ParseObject's loop that reads one name and value. */
    method ParseMember(ghost memberCount: nat)
      requires Good()
      modifies this`pos, this`evs, this`error
      ensures error == None ==> Good() && old(pos) < pos
      ensures Members(src, old(pos), memberCount, old(evs)) ==
        match Report()
        case Fail(code, off, evs') => Fail(code, off, evs')
        case Ok(q, evs') => AfterMember(src, q, Count(memberCount), evs')
      decreases |src.text| - pos, 0
    {
      hide Skip, StringEvent, AfterMember;
      if Next() != '\"' {
        SetParseError(ObjectMissName, pos);
        return;
      }
      ParseString(true);
      if error.Some? { return; }
      SkipWhitespaceAndComments();
      if error.Some? { return; }
      var colon := Consume(':');
      if !colon {
        SetParseError(ObjectMissColon, pos);
        return;
      }
      SkipWhitespaceAndComments();
      if error.Some? { return; }
      ParseValue();
    }

    /** Parse, without the iterative flag, on a reader that has not read anything yet. */
    method Parse()
      requires Good() && pos == 0 && evs == []
      modifies this
      ensures Report() == JsonReader.Parse(src)
      ensures JsonReadersAgree.SameReport(src, Halt(src), Report())
    {
      hide Value, Skip;
      JsonReadersAgree.ReadersAgree(src);
      SkipWhitespaceAndComments();
      if error.Some? { return; }
      if Next() == '\0' {
        SetParseError(DocumentEmpty, pos);
        return;
      }
      ParseValue();
      if error.Some? { return; }
      if !src.flags.stopWhenDone {
        SkipWhitespaceAndComments();
        if error.Some? { return; }
        if Next() != '\0' { SetParseError(DocumentRootNotSingular, pos); }
      }
    }
  
    // ---- the iterative reader ---------------------------------------------------------------

    /** The machine that the iterative reader's fields and its local state make up. */
    ghost function Snapshot(state: State): Machine
      reads this
    {
      Machine(state, pos, stack, evs)
    }

    /** Transit: the new state, or Error with the parse error set. */
    method DoTransit(source: State, dst: State) returns (d: State)
      requires Good() && pos < |src.text| && Balanced(source, stack)
      requires dst == Predict(source, Tokenize(src.text[pos])) && dst != State.Error
      modifies this
      ensures match Transit(src, old(Snapshot(source)), dst)
              case Next(m) => Good() && d == m.st && Snapshot(d) == m
              case Stop(o) => d == State.Error && error.Some? && Report() == o
    {
      hide Value, StringEvent;
      if dst == ObjectInitial || dst == ArrayInitial {
        d := PushFrame(source, dst);
      } else if dst == MemberKey {
        ParseString(true);
        d := if error.Some? then State.Error else dst;
      } else if dst == KeyValueDelimiter {
        pos := pos + 1;
        d := dst;
      } else if dst == ObjectFinish || dst == ArrayFinish {
        d := PopFrame(source, dst);
      } else if dst == MemberDelimiter || dst == ElementDelimiter {
        CountOne();
        d := dst;
      } else {
        ParseValue();
        d := if error.Some? then State.Error else if dst == SingleValue then Finish else dst;
      }
    }

    /** A delimiter is taken and counted in the top frame. */
    method CountOne()
      requires Good() && pos < |src.text| && stack != []
      modifies this`pos, this`stack
      ensures pos == old(pos) + 1
      ensures forall st, dst :: Delimit(old(Snapshot(st)), dst) == Step.Next(Snapshot(dst))
    {
      var top := stack[|stack| - 1];
      stack := stack[..|stack| - 1] + [top.(count := Count(top.count))];
      pos := pos + 1;
    }

    /** An opening bracket. */
    method PushFrame(source: State, dst: State) returns (d: State)
      requires Good() && pos < |src.text| && dst in {ObjectInitial, ArrayInitial}
      modifies this
      ensures match Open(src, old(Snapshot(source)), dst)
              case Next(m) => Good() && d == m.st && Snapshot(d) == m
              case Stop(o) => d == State.Error && error.Some? && Report() == o
    {
      var n := source;
      if source == ArrayInitial || source == ElementDelimiter {
        n := Element;
      } else if source == KeyValueDelimiter {
        n := MemberValue;
      }
      stack := stack + [Frame(n, 0)];
      var ok := Handle(if dst == ObjectInitial then StartObject else StartArray);
      if ok {
        pos := pos + 1;
        d := dst;
      } else {
        SetParseError(Termination, pos);
        d := State.Error;
      }
    }

    /** A closing bracket, which may follow a delimiter only if trailing commas are allowed. */
    method PopFrame(source: State, dst: State) returns (d: State)
      requires Good() && pos < |src.text| && stack != [] && dst in {ObjectFinish, ArrayFinish}
      modifies this
      ensures match Close(src, old(Snapshot(source)), dst)
              case Next(m) => Good() && d == m.st && Snapshot(d) == m
              case Stop(o) => d == State.Error && error.Some? && Report() == o
    {
      hide Count;
      if !src.flags.trailingCommas && source == (if dst == ObjectFinish then MemberDelimiter else ElementDelimiter) {
        SetParseError(if dst == ObjectFinish then ObjectMissName else ValueInvalid, pos);
        return State.Error;
      }
      var top := stack[|stack| - 1];
      stack := stack[..|stack| - 1];
      var c := if source == MemberValue || source == Element then Count(top.count) else top.count;
      var n := if top.resume == Start then Finish else top.resume;
      d := CloseWith(if dst == ObjectFinish then EndObject(c) else EndArray(c), n);
    }

    /** Report the end of an array or object and take its bracket. */
    method CloseWith(e: Event, n: State) returns (d: State)
      requires Good() && pos < |src.text|
      modifies this`pos, this`evs, this`error
      ensures Report() == Emit(src, old(evs), e, old(pos) + 1, old(pos))
      ensures d == if error.None? then n else State.Error
    {
      var ok := Handle(e);
      if ok {
        pos := pos + 1;
        d := n;
      } else {
        SetParseError(Termination, pos);
        d := State.Error;
      }
    }

    method HandleError(source: State)
      modifies this`error
      ensures old(error).Some? ==> error == old(error)
      ensures old(error).None? ==> error.Some? && Report() == Unexpected(old(Snapshot(source)))
    {
      if error.Some? { return; }
      match source {
        case Start => SetParseError(DocumentEmpty, pos);
        case Finish => SetParseError(DocumentRootNotSingular, pos);
        case ObjectInitial => SetParseError(ObjectMissName, pos);
        case MemberDelimiter => SetParseError(ObjectMissName, pos);
        case MemberKey => SetParseError(ObjectMissColon, pos);
        case MemberValue => SetParseError(ObjectMissCommaOrCurlyBracket, pos);
        case Element => SetParseError(ArrayMissCommaOrSquareBracket, pos);
        case _ => SetParseError(ValueInvalid, pos);
      }
    }

    /** IterativeParse, on a reader that has not read anything yet. */
    method ParseIteratively()
      requires Good() && pos == 0 && evs == [] && stack == []
      modifies this
      ensures Report() == IterativeParse(src)
    {
      hide Transit, SkipFrom;
      var state := Start;
      SkipWhitespaceAndComments();
      if error.Some? { return; }
      while Next() != '\0'
        invariant Good() && Balanced(state, stack)
        invariant Halt(src) == Run(src, Snapshot(state))
        decreases |src.text| - pos
      {
        ghost var m := Snapshot(state);
        var dst := Predict(state, Tokenize(Next()));
        var d := State.Error;
        if dst != State.Error {
          d := DoTransit(state, dst);
        }
        if d == State.Error {
          if dst == State.Error {
            JsonSimulation.UnexpectedSim(src, m);
          } else {
            assert Transit(src, m, dst).Stop? by {
              if Transit(src, m, dst).Next? { TransitKeepsBalance(src, m, dst); }
            }
            JsonSimulation.RunStop(src, m, dst, Report());
          }
          HandleError(state);
          break;
        }
        JsonSimulation.RunStep(src, m, dst, Snapshot(d));
        TransitKeepsBalance(src, m, dst);
        state := d;
        if src.flags.stopWhenDone && state == Finish {
          break;
        }
        SkipWhitespaceAndComments();
        if error.Some? { return; }
      }
      if state != Finish {
        HandleError(state);
      }
    }
  }
}
