/** JSON Pointers on values: Get, Create, Set and Erase, and what one of them means for another. */
module PointerTree {
  import opened Common
  import opened JsonText
  import opened JsonPointer

  /** The first member of that name, or the number of members. */
  function Find(ms: seq<Member>, name: string): (k: nat)
    ensures k <= |ms|
    ensures k < |ms| ==> ms[k].name == name
    ensures forall j :: 0 <= j < k ==> ms[j].name != name
  {
    if ms == [] || ms[0].name == name then 0
    else
      var k := Find(ms[1..], name);
      assert forall j :: 0 < j < k + 1 ==> ms[j].name == ms[1..][j - 1].name;
      k + 1
  }

  /** The value that one token selects. */
  function Child(v: Json, t: Token): Option<Json> {
    match v
    case JObject(ms) => if Find(ms, t.name) < |ms| then Some(ms[Find(ms, t.name)].value) else None
    case JArray(es) => if t.index == INVALID_INDEX || t.index >= |es| then None else Some(es[t.index])
    case _ => None
  }

  /** Get. */
  function Get(v: Json, ts: seq<Token>): Option<Json>
    decreases |ts|
  {
    if ts == [] then Some(v)
    else
      match Child(v, ts[0])
      case None => None
      case Some(w) => Get(w, ts[1..])
  }

  /** Get as a walk down the tree. */
  method Resolve(root: Json, ts: seq<Token>) returns (r: Option<Json>, unresolved: nat)
    ensures r == Get(root, ts)
    ensures r.None? ==> unresolved < |ts| && Get(root, ts[..unresolved]).Some? && Get(root, ts[..unresolved + 1]).None?
  {
    hide Child;
    var v := root;
    var k := 0;
    GetEmpty(root, ts);
    while k < |ts|
      invariant k <= |ts| && Get(v, ts[k..]) == Get(root, ts) && Get(root, ts[..k]) == Some(v)
    {
      GetSnoc(root, ts[..k], ts[k]);
      assert ts[..k] + [ts[k]] == ts[..k + 1];
      assert ts[k..][1..] == ts[k + 1..];
      match Child(v, ts[k]) {
        case None => return None, k;
        case Some(w) => v := w;
      }
      k := k + 1;
    }
    assert ts[k..] == [];
    return Some(v), 0;
  }

  lemma GetEmpty(root: Json, ts: seq<Token>)
    ensures ts[0..] == ts && Get(root, ts[..0]) == Some(root)
  {
  }

  lemma {:induction false} GetSnoc(v: Json, ts: seq<Token>, t: Token)
    ensures Get(v, ts + [t]) == match Get(v, ts) case None => None case Some(w) => Child(w, t)
    decreases |ts|
  {
    hide Child;
    if ts == [] {
      assert ts + [t] == [t] && [t][1..] == [];
    } else {
      assert (ts + [t])[1..] == ts[1..] + [t];
      if Child(v, ts[0]).Some? { GetSnoc(Child(v, ts[0]).value, ts[1..], t); }
    }
  }

  // ---- Create and Set -------------------------------------------------------------------------

  predicate IsDash(t: Token) {
    t.name == "-"
  }

  /** The token appends to the array instead of selecting from it. */
  predicate Appends(v: Json, t: Token) {
    v.JArray? && IsDash(t)
  }

  /** The value after its type was changed to one that the token can select from. */
  function Retyped(v: Json, t: Token): Json {
    if t.index == INVALID_INDEX then (if v.JObject? then v else JObject([]))
    else if v.JArray? || v.JObject? then v else JArray([])
  }

  function Nulls(n: nat): (es: seq<Json>)
    ensures |es| == n && forall k :: 0 <= k < n ==> es[k] == JNull
  {
    seq(n, i => JNull)
  }

  /** The elements after padding with null up to the index. */
  function Padded(es: seq<Json>, index: nat): (r: seq<Json>)
    ensures index < |r| && |es| <= |r| && r[..|es|] == es
    ensures forall k :: |es| <= k < |r| ==> r[k] == JNull
    ensures index < |es| ==> r == es
  {
    if index < |es| then es else es + Nulls(index + 1 - |es|)
  }

  /** The value after its type was changed if need be and the child of that token was made to be `w`. */
  function Graft(v: Json, t: Token, w: Json): (r: Json)
    ensures r.JArray? || r.JObject?
  {
    if Appends(v, t) then JArray(v.elems + [w])
    else
      match Retyped(v, t)
      case JArray(es) => JArray(Padded(es, t.index)[t.index := w])
      case JObject(ms) =>
        var k := Find(ms, t.name);
        if k == |ms| then JObject(ms + [Member(t.name, w)]) else JObject(ms[k := Member(t.name, w)])
      case _ => assert false; JArray([])
  }

  /** The child from which Create goes on: the one that is there, or a new null. */
  function Next(v: Json, t: Token): Json {
    if Child(v, t).Some? then Child(v, t).value else JNull
  }

  /** The tree after all of the path was created and `leaf`, if there is one, was put in the place
      of the value at its end: Create without a leaf, Set with one. */
  function Put(v: Json, ts: seq<Token>, leaf: Option<Json>): Json
    decreases |ts|
  {
    if ts == [] then (if leaf.Some? then leaf.value else v)
    else Graft(v, ts[0], Put(Next(v, ts[0]), ts[1..], leaf))
  }

  /** The step finds its child there: it appends, pads and adds nothing. */
  predicate Here(v: Json, t: Token) {
    !Appends(v, t) &&
    match Retyped(v, t)
    case JArray(es) => t.index < |es|
    case JObject(ms) => Find(ms, t.name) < |ms|
    case _ => false
  }

  /** Create's answer whether the value was there. */
  function AlreadyExist(v: Json, ts: seq<Token>): bool
    decreases |ts|
  {
    ts == [] || (Here(v, ts[0]) && AlreadyExist(Next(v, ts[0]), ts[1..]))
  }

  /** Some token "-" meets an array on the way, an element being appended there. */
  predicate DashMet(v: Json, ts: seq<Token>)
    decreases |ts|
  {
    ts != [] && (Appends(v, ts[0]) || DashMet(Next(v, ts[0]), ts[1..]))
  }

  /** The token's index belongs to its name. */
  predicate Genuine(t: Token) {
    t.index == IndexOf(t.name)
  }

  predicate AllGenuine(ts: seq<Token>) {
    forall k :: 0 <= k < |ts| ==> Genuine(ts[k])
  }

  lemma DashHasNoIndex(t: Token)
    requires Genuine(t) && IsDash(t)
    ensures t.index == INVALID_INDEX
  {
  }

  lemma FindIs(ms: seq<Member>, name: string, k: nat)
    requires k < |ms| && ms[k].name == name && forall j :: 0 <= j < k ==> ms[j].name != name
    ensures Find(ms, name) == k
  {
  }

  lemma FindNone(ms: seq<Member>, name: string)
    requires forall j :: 0 <= j < |ms| ==> ms[j].name != name
    ensures Find(ms, name) == |ms|
  {
  }

  lemma FindAdded(ms: seq<Member>, m: Member, name: string)
    requires Find(ms, m.name) == |ms|
    ensures Find(ms + [m], m.name) == |ms|
    ensures name != m.name && Find(ms, name) < |ms| ==> Find(ms + [m], name) == Find(ms, name)
  {
    FindIs(ms + [m], m.name, |ms|);
    var k := Find(ms, name);
    if name != m.name && k < |ms| { FindIs(ms + [m], name, k); }
  }

  lemma FindChanged(ms: seq<Member>, m: Member, name: string)
    requires Find(ms, m.name) < |ms|
    ensures Find(ms[Find(ms, m.name) := m], name) == Find(ms, name)
  {
    var k, j := Find(ms, m.name), Find(ms, name);
    var changed := ms[k := m];
    assert forall i :: 0 <= i < |ms| ==> changed[i].name == ms[i].name;
    if j < |ms| { FindIs(changed, name, j); } else { FindNone(changed, name); }
  }

  /** What was grafted is what the token selects. */
  lemma ChildOfGraft(v: Json, t: Token, w: Json)
    requires Genuine(t)
    ensures Child(Graft(v, t, w), t) == if Appends(v, t) then None else Some(w)
  {
    hide Find;
    if !Appends(v, t) && Retyped(v, t).JObject? {
      var ms := Retyped(v, t).members;
      if Find(ms, t.name) == |ms| { FindAdded(ms, Member(t.name, w), t.name); }
      else { FindChanged(ms, Member(t.name, w), t.name); }
    }
  }

  /** Both tokens select the same child. */
  predicate SameStep(v: Json, a: Token, b: Token) {
    if v.JObject? then a.name == b.name else v.JArray? && a.index == b.index
  }

  /** The token makes an object of an array, which loses all its elements. */
  predicate Wipes(v: Json, t: Token) {
    v.JArray? && t.index == INVALID_INDEX && !IsDash(t)
  }

  /** The other children stay, unless all of them go. */
  lemma OtherChild(v: Json, t: Token, w: Json, u: Token)
    requires Genuine(t) && Genuine(u) && Child(v, u).Some? && !SameStep(v, t, u)
    ensures Child(Graft(v, t, w), u) == if Wipes(v, t) then None else Child(v, u)
  {
    hide Find;
    if v.JObject? {
      var ms := v.members;
      if Find(ms, t.name) == |ms| { FindAdded(ms, Member(t.name, w), u.name); }
      else {
        FindChanged(ms, Member(t.name, w), u.name);
      }
    } else if Wipes(v, t) {
      FindNone([], t.name);
      FindNone([Member(t.name, w)], u.name);
    }
  }

  /** The law of Set and Create: after Set, Get finds the value that was set; after Create it finds
      the value that was there or a null; and only a "-" that met an array stands in the way. */
  lemma {:induction false} GetAfterPut(v: Json, ts: seq<Token>, leaf: Option<Json>)
    requires AllGenuine(ts)
    ensures Get(Put(v, ts, leaf), ts) ==
            if DashMet(v, ts) then None
            else if leaf.Some? then leaf
            else if Get(v, ts).Some? then Get(v, ts)
            else Some(JNull)
    decreases |ts|
  {
    hide Child, Graft, Appends, Genuine;
    if ts != [] {
      assert Genuine(ts[0]);
      ChildOfGraft(v, ts[0], Put(Next(v, ts[0]), ts[1..], leaf));
      GetAfterPut(Next(v, ts[0]), ts[1..], leaf);
      if Child(v, ts[0]).None? {
        GetOfNull(ts[1..]);
      }
    }
  }

  lemma GetOfNull(ts: seq<Token>)
    ensures Get(JNull, ts) == if ts == [] then Some(JNull) else None
  {
  }

  /** Create says that the value was there exactly when Get finds it, and then changes nothing. */
  lemma {:induction false} ExistedIffFound(v: Json, ts: seq<Token>)
    requires AllGenuine(ts)
    ensures AlreadyExist(v, ts) <==> Get(v, ts).Some?
    ensures AlreadyExist(v, ts) ==> Put(v, ts, None) == v
    decreases |ts|
  {
    hide Find, Graft;
    if ts != [] {
      assert Genuine(ts[0]);
      ExistedIffFound(Next(v, ts[0]), ts[1..]);
      if Child(v, ts[0]).Some? { GraftBack(v, ts[0]); }
    }
  }

  /** Putting back the child that is there changes nothing. */
  lemma GraftBack(v: Json, t: Token)
    requires Genuine(t) && Child(v, t).Some?
    ensures Graft(v, t, Child(v, t).value) == v
  {
    hide Find;
    if v.JObject? {
      var k := Find(v.members, t.name);
      assert v.members[k := Member(t.name, v.members[k].value)] == v.members;
    } else {
      assert v.elems[t.index := v.elems[t.index]] == v.elems;
    }
  }

  // ---- what Create and Set make on the way --------------------------------------------------------

  /** The only members are those before, in their order, but for the value of the first one of that name, or
      one more of that name at the end. */
  predicate MemberMade(ms: seq<Member>, made: seq<Member>, name: string) {
    if exists k :: 0 <= k < |ms| && ms[k].name == name then
      |made| == |ms| && (forall k :: 0 <= k < |ms| ==> made[k].name == ms[k].name) &&
      forall k :: 0 <= k < |ms| && (ms[k].name != name || exists j :: 0 <= j < k && ms[j].name == name) ==>
        made[k] == ms[k]
    else |made| == |ms| + 1 && made[..|ms|] == ms && made[|ms|].name == name
  }

  /** The elements before stay, and nulls fill up to the one at the index, which is the last if it is new. */
  predicate ElementMade(es: seq<Json>, made: seq<Json>, index: nat) {
    |made| == (if index < |es| then |es| else index + 1) &&
    (forall k :: 0 <= k < |es| && k != index ==> made[k] == es[k]) &&
    forall k :: |es| <= k < index ==> made[k] == JNull
  }

  /** What a token makes of what was there, an array or an object, or of a leaf or nothing. */
  predicate Makes(before: Option<Json>, after: Json, t: Token) {
    if before.Some? && before.value.JArray? then
      var es := before.value.elems;
      if t.name == "-" then after.JArray? && |after.elems| == |es| + 1 && after.elems[..|es|] == es
      else if t.index == INVALID_INDEX then after.JObject? && MemberMade([], after.members, t.name)
      else after.JArray? && ElementMade(es, after.elems, t.index)
    else if before.Some? && before.value.JObject? then
      after.JObject? && MemberMade(before.value.members, after.members, t.name)
    else if t.index == INVALID_INDEX then after.JObject? && MemberMade([], after.members, t.name)
    else after.JArray? && ElementMade([], after.elems, t.index)
  }

  lemma GraftMakes(v: Json, t: Token, w: Json)
    requires Genuine(t)
    ensures Makes(Some(v), Graft(v, t, w), t)
    ensures Appends(v, t) ==> Graft(v, t, w).elems[|v.elems|] == w
  {
    hide Find, Genuine;
    if !Appends(v, t) && Retyped(v, t).JObject? { MembersMade(Retyped(v, t).members, t.name, w); }
  }

  lemma MembersMade(ms: seq<Member>, name: string, w: Json)
    ensures var k, m := Find(ms, name), Member(name, w);
            MemberMade(ms, if k == |ms| then ms + [m] else ms[k := m], name)
  {
    var k, m := Find(ms, name), Member(name, w);
    if k < |ms| {
      forall i | 0 <= i < |ms| && (ms[i].name != name || exists j :: 0 <= j < i && ms[j].name == name)
        ensures ms[k := m][i] == ms[i]
      {
      }
    }
  }

  /** On every proper part of the path, up to a "-" that meets an array, there is afterwards what the next token
      makes of what was there; and a "-" appends what the rest of the path makes of a null. */
  lemma {:induction false} PutMakes(v: Json, ts: seq<Token>, leaf: Option<Json>, k: nat)
    requires AllGenuine(ts) && k < |ts| && !DashMet(v, ts[..k])
    ensures var before, after := Get(v, ts[..k]), Get(Put(v, ts, leaf), ts[..k]);
            after.Some? && Makes(before, after.value, ts[k]) &&
            (before.Some? && before.value.JArray? && ts[k].name == "-" ==>
               after.value.elems[|before.value.elems|] == Put(JNull, ts[k + 1..], leaf))
    decreases k
  {
    hide Child, Graft, Appends, Genuine, Makes;
    var t, w := ts[0], Put(Next(v, ts[0]), ts[1..], leaf);
    assert Genuine(t);
    if k == 0 {
      GetEmpty(v, ts);
      GetEmpty(Graft(v, t, w), ts);
      GraftMakes(v, t, w);
      NextOfDash(v, t);
    } else {
      assert ts[..k][1..] == ts[1..][..k - 1] && ts[..k][0] == t;
      ChildOfGraft(v, t, w);
      PutMakes(Next(v, t), ts[1..], leaf, k - 1);
      assert ts[1..][k..] == ts[k + 1..];
      if Child(v, t).None? {
        GetOfNull(ts[1..][..k - 1]);
        NothingIsLeaf(Get(Put(v, ts, leaf), ts[..k]).value, ts[k]);
      }
    }
  }

  lemma NextOfDash(v: Json, t: Token)
    requires Genuine(t)
    ensures Appends(v, t) <==> v.JArray? && t.name == "-"
    ensures Appends(v, t) ==> Next(v, t) == JNull
  {
    if Appends(v, t) { DashHasNoIndex(t); }
  }

  lemma NothingIsLeaf(after: Json, t: Token)
    ensures Makes(None, after, t) <==> Makes(Some(JNull), after, t)
  {
  }

  // ---- what Set leaves alone ------------------------------------------------------------------

  /** The two paths part: at some node both go on, and to different children. */
  predicate Part(v: Json, p: seq<Token>, q: seq<Token>)
    decreases |q|
  {
    p != [] && q != [] && Child(v, q[0]).Some? &&
    (SameStep(v, p[0], q[0]) ==> Part(Child(v, q[0]).value, p[1..], q[1..]))
  }

  /** The node where they part is an array of which the first path makes an object. */
  predicate Wiped(v: Json, p: seq<Token>, q: seq<Token>)
    requires Part(v, p, q)
    decreases |q|
  {
    if SameStep(v, p[0], q[0]) then Wiped(Child(v, q[0]).value, p[1..], q[1..]) else Wipes(v, p[0])
  }

  /** A pointer that parts from the one that is set, and resolved before, still resolves, and to the
      same value; only where they part at an array that becomes an object it does not resolve any more. */
  lemma {:induction false} SetKeepsOthers(v: Json, p: seq<Token>, q: seq<Token>, leaf: Option<Json>)
    requires AllGenuine(p) && AllGenuine(q) && Part(v, p, q) && Get(v, q).Some?
    ensures Get(Put(v, p, leaf), q) == if Wiped(v, p, q) then None else Get(v, q)
    decreases |q|
  {
    hide Find, Graft;
    var w := Put(Next(v, p[0]), p[1..], leaf);
    assert Genuine(p[0]) && Genuine(q[0]);
    if SameStep(v, p[0], q[0]) {
      SameStepIsSameChild(v, p[0], q[0]);
      SameStepIsSameChild(Graft(v, p[0], w), p[0], q[0]);
      SetKeepsOthers(Child(v, q[0]).value, p[1..], q[1..], leaf);
      ChildOfGraft(v, p[0], w);
      GraftKeepsKind(v, p[0], w);
    } else {
      OtherChild(v, p[0], w, q[0]);
    }
  }

  lemma SameStepIsSameChild(v: Json, a: Token, b: Token)
    ensures SameStep(v, a, b) ==> Child(v, a) == Child(v, b)
  {
  }

  lemma GraftKeepsKind(v: Json, t: Token, w: Json)
    requires Genuine(t) && Child(v, t).Some?
    ensures Graft(v, t, w).JArray? == v.JArray? && Graft(v, t, w).JObject? == v.JObject?
  {
  }

  // ---- Erase ----------------------------------------------------------------------------------

  /** The value without the child that the token selects. */
  function Without(v: Json, t: Token): Json
    requires Child(v, t).Some?
  {
    if v.JObject? then
      var k := Find(v.members, t.name);
      JObject(v.members[..k] + v.members[k + 1..])
    else JArray(v.elems[..t.index] + v.elems[t.index + 1..])
  }

  /** The tree after Erase; nothing where it answers false. */
  function Erase(v: Json, ts: seq<Token>): Option<Json>
    decreases |ts|
  {
    if ts == [] || Child(v, ts[0]).None? then None
    else if |ts| == 1 then Some(Without(v, ts[0]))
    else
      match Erase(Child(v, ts[0]).value, ts[1..])
      case None => None
      case Some(w) => Some(Graft(v, ts[0], w))
  }

  /** Erase succeeds exactly on what Get finds below the root. */
  lemma {:induction false} EraseIffFound(v: Json, ts: seq<Token>)
    ensures Erase(v, ts).Some? <==> ts != [] && Get(v, ts).Some?
    decreases |ts|
  {
    hide Child, Without, Graft;
    if ts != [] && Child(v, ts[0]).Some? {
      EraseIffFound(Child(v, ts[0]).value, ts[1..]);
      if |ts| == 1 { assert ts[1..] == []; }
    }
  }

  /** One child is missing, the others are in their order. */
  predicate OneLess<T(==)>(q: seq<T>, r: seq<T>, k: nat) {
    k < |q| && |r| == |q| - 1 &&
    (forall j :: 0 <= j < k ==> r[j] == q[j]) && forall j :: k <= j < |r| ==> r[j] == q[j + 1]
  }

  /** The element at the index, or the first member of the name, is gone. */
  ghost predicate Erased(before: Json, after: Json, t: Token) {
    match before
    case JArray(es) => after.JArray? && OneLess(es, after.elems, t.index)
    case JObject(ms) =>
      after.JObject? &&
      exists k :: 0 <= k < |ms| && ms[k].name == t.name && (forall j :: 0 <= j < k ==> ms[j].name != t.name) &&
        OneLess(ms, after.members, k)
    case _ => false
  }

  lemma WithoutErases(v: Json, t: Token)
    requires Child(v, t).Some?
    ensures Erased(v, Without(v, t), t)
  {
    hide Find;
    if v.JObject? {
      var k := Find(v.members, t.name);
      assert OneLess(v.members, Without(v, t).members, k);
    }
  }

  /** What was above the value that is erased has one child less. */
  lemma {:induction false} EraseTakesOne(v: Json, p: seq<Token>)
    requires AllGenuine(p) && Erase(v, p).Some?
    ensures var n := |p| - 1;
            var before, after := Get(v, p[..n]), Get(Erase(v, p).value, p[..n]);
            before.Some? && after.Some? && Erased(before.value, after.value, p[n])
    decreases |p|
  {
    hide Child, Without, Graft, Genuine;
    var n := |p| - 1;
    if n == 0 {
      assert p[..0] == [];
      WithoutErases(v, p[0]);
    } else {
      assert Genuine(p[0]);
      var w := Erase(Child(v, p[0]).value, p[1..]).value;
      EraseTakesOne(Child(v, p[0]).value, p[1..]);
      assert p[..n][1..] == p[1..][..n - 1] && p[..n][0] == p[0];
      ChildOfGraft(v, p[0], w);
      NotAppended(v, p[0]);
    }
  }

  lemma NotAppended(v: Json, t: Token)
    requires Genuine(t) && Child(v, t).Some?
    ensures !Appends(v, t)
  {
    if Appends(v, t) { DashHasNoIndex(t); }
  }

  /** Two paths part: after a common way they go on differently. */
  predicate Diverge(v: Json, p: seq<Token>, q: seq<Token>)
    decreases |q|
  {
    p != [] && q != [] &&
    (SameStep(v, p[0], q[0]) ==> Child(v, q[0]).Some? && Diverge(Child(v, q[0]).value, p[1..], q[1..]))
  }

  /** Another child is as before when one that is there is changed. */
  lemma OtherStays(v: Json, t: Token, w: Json, u: Token)
    requires Genuine(t) && Child(v, t).Some? && !SameStep(v, t, u)
    ensures Child(Graft(v, t, w), u) == Child(v, u)
  {
    hide Find;
    if v.JObject? { FindChanged(v.members, Member(t.name, w), u.name); }
  }

  /** A pointer that parts from the erased one above the node that loses its child resolves as before. */
  lemma {:induction false} EraseKeepsOthers(v: Json, p: seq<Token>, q: seq<Token>)
    requires AllGenuine(p) && Erase(v, p).Some? && Diverge(v, p[..|p| - 1], q)
    ensures Get(Erase(v, p).value, q) == Get(v, q)
    decreases |q|
  {
    hide Find, Graft, Genuine;
    assert Genuine(p[0]) && p[..|p| - 1][0] == p[0] && p[..|p| - 1][1..] == p[1..][..|p| - 2];
    var w := Erase(Child(v, p[0]).value, p[1..]).value;
    if SameStep(v, p[0], q[0]) {
      SameStepIsSameChild(v, p[0], q[0]);
      EraseKeepsOthers(Child(v, q[0]).value, p[1..], q[1..]);
      ChildOfGraft(v, p[0], w);
      NotAppended(v, p[0]);
      GraftKeepsKind(v, p[0], w);
      SameStepIsSameChild(Graft(v, p[0], w), p[0], q[0]);
    } else {
      OtherStays(v, p[0], w, q[0]);
    }
  }

  /** Setting puts a new last child into a node that is there. */
  predicate AddsLast(v: Json, ts: seq<Token>)
    decreases |ts|
  {
    ts != [] &&
    (if |ts| == 1 then (v.JObject? && Child(v, ts[0]).None?) || (v.JArray? && ts[0].index == |v.elems| != INVALID_INDEX)
     else Child(v, ts[0]).Some? && AddsLast(Child(v, ts[0]).value, ts[1..]))
  }

  /** Erase undoes a Set that added to a node that was there. */
  lemma {:induction false} EraseUndoesSet(v: Json, ts: seq<Token>, x: Json)
    requires AllGenuine(ts) && AddsLast(v, ts)
    ensures Erase(Put(v, ts, Some(x)), ts) == Some(v)
    decreases |ts|
  {
    hide Find, Graft, Without;
    var t := ts[0];
    assert Genuine(t);
    if |ts| == 1 {
      WithoutNew(v, t, x);
      assert ts[1..] == [];
    } else {
      var w := Put(Child(v, t).value, ts[1..], Some(x));
      EraseUndoesSet(Child(v, t).value, ts[1..], x);
      ChildOfGraft(v, t, w);
      GraftTwice(v, t, w, Child(v, t).value);
      GraftBack(v, t);
    }
  }

  lemma WithoutNew(v: Json, t: Token, x: Json)
    requires Genuine(t)
    requires (v.JObject? && Child(v, t).None?) || (v.JArray? && t.index == |v.elems| != INVALID_INDEX)
    ensures Child(Graft(v, t, x), t).Some? && Without(Graft(v, t, x), t) == v
  {
    hide Find;
    ChildOfGraft(v, t, x);
    if v.JObject? {
      var ms, m := v.members, Member(t.name, x);
      FindAdded(ms, m, t.name);
      assert (ms + [m])[..|ms|] + (ms + [m])[|ms| + 1..] == ms;
    } else {
      var es := v.elems + Nulls(1);
      assert es[t.index := x][..t.index] + es[t.index := x][t.index + 1..] == v.elems;
    }
  }

  /** The second of two grafts under one token is the one that counts. */
  lemma GraftTwice(v: Json, t: Token, a: Json, b: Json)
    requires Genuine(t) && Child(v, t).Some?
    ensures Graft(Graft(v, t, a), t, b) == Graft(v, t, b)
  {
    hide Find;
    if v.JObject? { FindChanged(v.members, Member(t.name, a), t.name); }
  }
}
