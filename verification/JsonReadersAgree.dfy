/** The table-driven reader against the recursive-descent one: on every text, with every flag
    and every handler, they raise the same events and end at the same place, and where they
    fail their errors are the same but for two differences that are stated exactly. */
module JsonReadersAgree {
  import opened JsonStream
  import opened JsonReader
  import opened JsonMachine
  import opened JsonSimulation

  /** What the recursive reader reports for `r` when the iterative one ends with `i`. */
  predicate SameReport(src: Source, i: Halted, r: Outcome) {
    if StartsWithNoValue(src) then
      var p := SkipFrom(src, 0).pos;
      i.outcome == Fail(DocumentEmpty, p, []) && r == Fail(ValueInvalid, p, [])
    else if r.Ok? then i.outcome == r
    else Agree(i, r)
  }

  /** The first character of the document is one of `]`, `}`, `,` and `:`. */
  predicate StartsWithNoValue(src: Source) {
    SkipFrom(src, 0).At? &&
    var c := Peek(src.text, SkipFrom(src, 0).pos);
    NoValue(c) && c != '\0'
  }

  /** The two readers on every text, under every flag and with every handler. */
  lemma ReadersAgree(src: Source)
    ensures SameReport(src, Halt(src), Parse(src))
  {
    hide Run, Continue, Value, SkipFrom;
    match SkipFrom(src, 0) {
      case Broken(off) =>
      case At(p) =>
        var m := Machine(Start, p, [], []);
        if NoValue(Peek(src.text, p)) {
          NoValueFails(src, p, []);
          UnexpectedSim(src, m);
        } else {
          ValueSim(src, m);
          match Value(src, p, []) {
            case Fail(code, off, evs) =>
            case Ok(q, evs) => RootSim(src, Machine(Finish, q, [], evs));
          }
        }
    }
  }
}
