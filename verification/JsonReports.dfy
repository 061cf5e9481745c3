/** Where the two readers' reports differ, and where they do not. */
module JsonReports {
  import opened JsonStream
  import opened JsonReader
  import opened JsonMachine
  import opened JsonSimulation
  import opened JsonReadersAgree

  /** In particular both accept the same texts, and raise the same events on all. */
  lemma SameLanguage(src: Source)
    ensures IterativeParse(src).Ok? <==> Parse(src).Ok?
    ensures IterativeParse(src).evs == Parse(src).evs
    ensures IterativeParse(src).Ok? ==> IterativeParse(src) == Parse(src)
  {
    hide Halt, Parse, StartsWithNoValue;
    ReadersAgree(src);
  }

  /** The handler refused a bracket that the recursive reader had taken: an opening one, or a closing one
      that did not come behind a trailing comma. */
  predicate RefusedTaken(src: Source) {
    var i := Halt(src);
    i.outcome.Fail? && i.outcome.code == Termination && TakenBracket(i.outcome.evs, i.st)
  }

  /** Exactly when the two reports differ. */
  lemma ReportsDifferIff(src: Source)
    ensures IterativeParse(src) != Parse(src) <==> StartsWithNoValue(src) || RefusedTaken(src)
  {
    hide Halt, Parse, StartsWithNoValue, TakenBracket;
    ReadersAgree(src);
  }

  /** A refused event is the last one, and its refusal is what both readers report. */
  lemma RefusedIsLast(src: Source)
    ensures RefusedTaken(src) && !StartsWithNoValue(src) ==>
            Parse(src) == Fail(Termination, IterativeParse(src).off + 1, IterativeParse(src).evs) &&
            !src.accepts(Parse(src).evs)
  {
    hide Halt, Parse, StartsWithNoValue, TakenBracket;
    ReadersAgree(src);
  }

  predicate IsBracket(e: Event) {
    e.StartArray? || e.StartObject? || e.EndArray? || e.EndObject?
  }

  /** A handler that refuses no bracket. */
  ghost predicate TakesBrackets(accepts: seq<Event> -> bool) {
    forall evs :: evs != [] && IsBracket(evs[|evs| - 1]) ==> accepts(evs)
  }

  /** With such a handler only the first character can make the reports differ. */
  lemma SameUnlessRefused(src: Source)
    requires TakesBrackets(src.accepts)
    ensures IterativeParse(src) != Parse(src) <==> StartsWithNoValue(src)
  {
    hide Halt, Parse, StartsWithNoValue;
    ReportsDifferIff(src);
    RefusedIsLast(src);
    ReadersAgree(src);
  }

  /** A bracket alone, refused by the handler, is reported at two places. */
  lemma RefusedBracketDiffers(src: Source)
    requires |src.text| == 1 && src.text[0] == '[' && !src.accepts([StartArray]) && !src.flags.comments
    ensures IterativeParse(src) == Fail(Termination, 0, [StartArray])
    ensures Parse(src) == Fail(Termination, 1, [StartArray])
  {
    assert SkipSpace(src.text, 0) == 0;
    assert SkipFrom(src, 0) == At(0);
    assert [] + [StartArray] == [StartArray];
    assert Balanced(Start, []);
    RunStop(src, Machine(Start, 0, [], []), ArrayInitial, Fail(Termination, 0, [StartArray]));
    assert Value(src, 0, []) == Array(src, 0, []);
  }

  /** A closing bracket alone is reported with two codes. */
  lemma ClosingBracketDiffers(src: Source)
    requires |src.text| == 1 && src.text[0] == ']' && !src.flags.comments
    ensures IterativeParse(src) == Fail(DocumentEmpty, 0, []) && Parse(src) == Fail(ValueInvalid, 0, [])
  {
  }
}
