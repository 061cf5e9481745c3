/** Create and Set of a JSON Pointer on a tree of nodes that is changed in place. */
module PointerInPlace {
  import opened Common
  import opened JsonText
  import opened JsonPointer
  import opened PointerTree

  /** What a node is; a leaf is a null, a boolean, a number or a string. */
  datatype Kind = Leaf(v: Json) | Arr | Obj

  class Value {
    var kind: Kind
    /** The elements, or the values of the members. */
    var kids: seq<Value>
    /** The names of the members. */
    var names: seq<string>
    ghost var repr: set<Value>
    ghost var abs: Json

    /** The value is the one that the kind, the names and the children spell. */
    ghost predicate Spelled()
      reads this, kids
    {
      match kind
      case Leaf(v) => kids == [] && names == [] && abs == v && !v.JArray? && !v.JObject?
      case Arr =>
        names == [] && abs.JArray? && |abs.elems| == |kids| &&
        forall i :: 0 <= i < |kids| ==> abs.elems[i] == kids[i].abs
      case Obj =>
        |names| == |kids| && abs.JObject? && |abs.members| == |kids| &&
        forall i :: 0 <= i < |kids| ==> abs.members[i] == Member(names[i], kids[i].abs)
    }

    /** A tree: the children's nodes are this node's, but none is shared. */
    ghost predicate Valid()
      reads this, repr
      decreases repr
    {
      this in repr &&
      (forall i :: 0 <= i < |kids| ==>
         kids[i] in repr && kids[i].repr <= repr && this !in kids[i].repr && kids[i].Valid()) &&
      (forall i, j :: 0 <= i < j < |kids| ==> kids[i].repr !! kids[j].repr) &&
      Spelled()
    }

    /** A null. */
    constructor ()
      ensures Valid() && abs == JNull && repr == {this}
    {
      kind, kids, names, repr, abs := Leaf(JNull), [], [], {this}, JNull;
    }

    /** SetArray and SetObject. */
    method Become(k: Kind)
      requires Valid() && !k.Leaf?
      modifies this
      ensures Valid() && kind == k && repr == {this} && kids == [] && names == []
      ensures abs == if k.Arr? then JArray([]) else JObject([])
    {
      kind, kids, names := k, [], [];
      repr, abs := {this}, if k.Arr? then JArray([]) else JObject([]);
    }

    /** PushBack of a null. */
    method PushBack() returns (c: Value)
      requires Valid() && kind.Arr?
      modifies this
      ensures Valid() && kind.Arr? && fresh(c) && c.abs == JNull && kids == old(kids) + [c]
      ensures repr == old(repr) + {c} && abs == JArray(old(abs.elems) + [JNull])
    {
      c := new Value();
      kids := kids + [c];
      repr := repr + {c};
      abs := JArray(abs.elems + [JNull]);
    }

    /** AddMember with a null. */
    method AddMember(name: string) returns (c: Value)
      requires Valid() && kind.Obj?
      modifies this
      ensures Valid() && kind.Obj? && fresh(c) && c.abs == JNull && kids == old(kids) + [c] &&
              names == old(names) + [name]
      ensures repr == old(repr) + {c} && abs == JObject(old(abs.members) + [Member(name, JNull)])
    {
      c := new Value();
      kids, names := kids + [c], names + [name];
      repr := repr + {c};
      abs := JObject(abs.members + [Member(name, JNull)]);
    }

    /** The position of the first member of that name, or their number. */
    method FindMember(name: string) returns (k: nat)
      requires Valid() && kind.Obj?
      ensures k == Find(abs.members, name)
    {
      k := 0;
      while k < |names|
        invariant k <= |names| && forall j :: 0 <= j < k ==> names[j] != name
      {
        if names[k] == name {
          FindIs(abs.members, name, k);
          return;
        }
        k := k + 1;
      }
      FindNone(abs.members, name);
    }

    /** Assignment: this node becomes what the other one was, and that one a null. The other may be a part of
        this one's own tree, or this node itself, which then stays as it is. */
    method Take(x: Value)
      requires Valid() && x.Valid() && (x == this || this !in x.repr)
      modifies this, x
      ensures Valid() && abs == old(x.abs) && repr == old(if x == this then repr else {this} + x.repr - {x})
      ensures x != this ==> x.Valid() && x.abs == JNull && x.repr == {x}
    {
      if this == x { return; }
      RawAssign(x);
      hide Valid;
      x.SetNull();
    }

    method RawAssign(x: Value)
      requires x.Valid() && this !in x.repr
      modifies this
      ensures Valid() && abs == x.abs && repr == {this} + x.repr - {x}
    {
      hide Spelled;
      ghost var all := {this} + x.repr - {x};
      assert forall i :: 0 <= i < |x.kids| ==>
        x.kids[i].Valid() && this !in x.kids[i].repr && x.kids[i] in all && x.kids[i].repr <= all;
      kind, kids, names := x.kind, x.kids, x.names;
      repr, abs := all, x.abs;
      SpelledAlike(x, this);
    }

    method SetNull()
      modifies this
      ensures Valid() && abs == JNull && repr == {this}
    {
      kind, kids, names, repr, abs := Leaf(JNull), [], [], {this}, JNull;
    }

    /** All but the `k`-th child are as this node knows them. */
    ghost predicate ValidBut(k: nat)
      reads this, kids, set i, o | 0 <= i < |kids| && o in kids[i].repr :: o
    {
      !kind.Leaf? && k < |kids| && this in repr &&
      (forall i :: 0 <= i < |kids| ==> kids[i] in kids[i].repr && this !in kids[i].repr && kids[i].Valid()) &&
      (forall i :: 0 <= i < |kids| && i != k ==> kids[i] in repr && kids[i].repr <= repr) &&
      (forall i, j :: 0 <= i < j < |kids| ==> kids[i].repr !! kids[j].repr) &&
      SpelledBut(k)
    }

    ghost predicate SpelledBut(k: nat)
      requires k < |kids|
      reads this, kids
    {
      (kind.Arr? ==>
         names == [] && abs.JArray? && |abs.elems| == |kids| &&
         forall i :: 0 <= i < |kids| && i != k ==> abs.elems[i] == kids[i].abs) &&
      (kind.Obj? ==>
         |names| == |kids| && abs.JObject? && |abs.members| == |kids| && abs.members[k].name == names[k] &&
         forall i :: 0 <= i < |kids| && i != k ==> abs.members[i] == Member(names[i], kids[i].abs))
    }

    /** Takes note of a child that was changed. */
    ghost method Refresh(k: nat)
      requires ValidBut(k)
      modifies this`repr, this`abs
      ensures Valid() && abs == WithKid(old(abs), k, kids[k].abs) && repr == old(repr) + kids[k].repr
    {
      repr := repr + kids[k].repr;
      abs := WithKid(abs, k, kids[k].abs);
    }

    /** Pads with null up to the index. */
    method Pad(index: nat)
      requires Valid() && kind.Arr?
      modifies this
      ensures Valid() && kind.Arr? && abs == JArray(Padded(old(abs.elems), index)) && index < |kids|
      ensures index < |old(kids)| ==> kids == old(kids) && repr == old(repr)
      ensures forall o :: o in repr ==> o in old(repr) || fresh(o)
    {
      ghost var es := abs.elems;
      while index >= |kids|
        invariant Valid() && kind.Arr?
        invariant |es| <= |kids| && (|es| < |kids| ==> |kids| <= index + 1)
        invariant abs == JArray(es + Nulls(|kids| - |es|))
        invariant |kids| == |es| ==> kids == old(kids) && repr == old(repr)
        invariant forall o :: o in repr ==> o in old(repr) || fresh(o)
        decreases index - |kids|
      {
        var c := PushBack();
        assert Nulls(|kids| - 1 - |es|) + [JNull] == Nulls(|kids| - |es|);
        assert es + (Nulls(|kids| - 1 - |es|) + [JNull]) == es + Nulls(|kids| - 1 - |es|) + [JNull];
      }
      assert es + Nulls(0) == es;
    }

    /** The member of that name, made if need be. */
    method MemberFor(name: string) returns (c: Value, exist: bool, k: nat)
      requires Valid() && kind.Obj?
      modifies this
      ensures Valid() && kind.Obj? && k == Find(old(abs.members), name) < |kids| && kids[k] == c
      ensures exist == (k < |old(abs.members)|)
      ensures exist ==> abs == old(abs) && kids == old(kids) && repr == old(repr)
      ensures !exist ==> abs == JObject(old(abs.members) + [Member(name, JNull)])
      ensures forall o :: o in repr ==> o in old(repr) || fresh(o)
    {
      k := FindMember(name);
      exist := k < |kids|;
      if exist { c := kids[k]; } else { c := AddMember(name); }
    }

    /** One step down: changes the type and makes the child if need be, and finds it. */
    method Descend(t: Token) returns (c: Value, exist: bool, k: nat)
      requires Valid() && Genuine(t)
      modifies this
      ensures Valid() && !kind.Leaf? && k < |kids| && kids[k] == c && c.abs == Next(old(abs), t)
      ensures forall w :: WithKid(abs, k, w) == Graft(old(abs), t, w)
      ensures exist == Here(old(abs), t)
      ensures exist ==> k == KidIndex(old(abs), t) && kids == old(kids) && repr == old(repr)
      ensures forall o :: o in repr ==> o in old(repr) || fresh(o)
    {
      hide Find, Padded, Graft, WithKid;
      ghost var v := abs;
      if kind.Arr? && t.name == "-" {
        AppendedKid(v, t);
        c := PushBack();
        return c, false, |kids| - 1;
      }
      if t.index == INVALID_INDEX {
        if !kind.Obj? { Become(Obj); }
      } else {
        if kind.Leaf? { Become(Arr); }
      }
      assert abs == Retyped(v, t);
      if kind.Arr? {
        PaddedKid(v, t);
        exist := t.index < |kids|;
        Pad(t.index);
        c, k := kids[t.index], t.index;
      } else {
        MemberKid(v, t);
        c, exist, k := MemberFor(t.name);
      }
    }

    /** The child that the token selects, if there is one. */
    method Select(t: Token) returns (k: nat, found: bool)
      requires Valid() && Genuine(t)
      ensures found <==> Child(abs, t).Some?
      ensures found ==>
              !kind.Leaf? && k < |kids| && Child(abs, t) == Some(kids[k].abs) &&
              Without(abs, t) == WithoutKid(abs, k)
      ensures found ==> forall w :: WithKid(abs, k, w) == Graft(abs, t, w)
    {
      hide Find, Graft, WithKid, Child, Without, WithoutKid, Genuine;
      if kind.Obj? {
        k := FindMember(t.name);
        found := k < |kids|;
      } else if kind.Arr? {
        k, found := t.index, t.index != INVALID_INDEX && t.index < |kids|;
      } else {
        k, found := 0, false;
      }
      SelectedKid(abs, t);
    }

    /** Drops the child, those behind it moving up. */
    method Drop(k: nat)
      requires Valid() && !kind.Leaf? && k < |kids|
      modifies this
      ensures Valid() && abs == WithoutKid(old(abs), k) && repr == old(repr)
    {
      hide Others;
      OthersAreTrees(this, k);
      kids := Others(kids, k);
      if kind.Obj? { names := Others(names, k); }
      abs := WithoutKid(abs, k);
    }
  }

  lemma SpelledAlike(x: Value, y: Value)
    requires x.kind == y.kind && x.kids == y.kids && x.names == y.names && x.abs == y.abs
    ensures x.Spelled() <==> y.Spelled()
  {
  }

  /** Of the children that stay each is a tree of its own. */
  lemma OthersAreTrees(v: Value, k: nat)
    requires v.Valid() && k < |v.kids|
    ensures var rest := Others(v.kids, k);
            (forall i :: 0 <= i < |rest| ==>
               rest[i] in v.repr && rest[i].repr <= v.repr && v !in rest[i].repr && rest[i].Valid()) &&
            forall i, j :: 0 <= i < j < |rest| ==> rest[i].repr !! rest[j].repr
  {
  }

  /** All but the `k`-th. */
  function Others<T>(q: seq<T>, k: nat): (r: seq<T>)
    requires k < |q|
    ensures |r| == |q| - 1 && forall i :: 0 <= i < |r| ==> r[i] == q[if i < k then i else i + 1]
  {
    q[..k] + q[k + 1..]
  }

  function WithoutKid(v: Json, k: nat): Json {
    match v
    case JArray(es) => if k < |es| then JArray(Others(es, k)) else v
    case JObject(ms) => if k < |ms| then JObject(Others(ms, k)) else v
    case _ => v
  }

  /** The value with its `k`-th child replaced. */
  function WithKid(v: Json, k: nat, w: Json): Json {
    match v
    case JArray(es) => if k < |es| then JArray(es[k := w]) else v
    case JObject(ms) => if k < |ms| then JObject(ms[k := Member(ms[k].name, w)]) else v
    case _ => v
  }

  lemma AppendedKid(v: Json, t: Token)
    requires Genuine(t) && Appends(v, t)
    ensures forall w :: WithKid(JArray(v.elems + [JNull]), |v.elems|, w) == Graft(v, t, w)
    ensures Next(v, t) == JNull && !Here(v, t)
  {
    DashHasNoIndex(t);
    forall w ensures WithKid(JArray(v.elems + [JNull]), |v.elems|, w) == Graft(v, t, w) {
      assert (v.elems + [JNull])[|v.elems| := w] == v.elems + [w];
    }
  }

  lemma PaddedKid(v: Json, t: Token)
    requires Genuine(t) && !Appends(v, t) && Retyped(v, t).JArray?
    ensures var es := Retyped(v, t).elems; var padded := Padded(es, t.index);
            (forall w :: WithKid(JArray(padded), t.index, w) == Graft(v, t, w)) &&
            padded[t.index] == Next(v, t) && (Here(v, t) <==> t.index < |es|)
  {
  }

  lemma MemberKid(v: Json, t: Token)
    requires Genuine(t) && !Appends(v, t) && Retyped(v, t).JObject?
    ensures var ms := Retyped(v, t).members; var k := Find(ms, t.name);
            (k == |ms| ==>
               (Next(v, t) == JNull &&
                forall w :: WithKid(JObject(ms + [Member(t.name, JNull)]), k, w) == Graft(v, t, w))) &&
            (k < |ms| ==>
               (ms[k].value == Next(v, t) && forall w :: WithKid(JObject(ms), k, w) == Graft(v, t, w))) &&
            (Here(v, t) <==> k < |ms|)
  {
    var ms := Retyped(v, t).members;
    if Find(ms, t.name) == |ms| {
      forall w ensures WithKid(JObject(ms + [Member(t.name, JNull)]), |ms|, w) == Graft(v, t, w) {
        assert (ms + [Member(t.name, JNull)])[|ms| := Member(t.name, w)] == ms + [Member(t.name, w)];
      }
    }
  }

  /** The child that the token selects, and the value with it changed or left out. */
  lemma SelectedKid(v: Json, t: Token)
    requires Genuine(t)
    ensures var k := KidIndex(v, t);
            match v
            case JObject(ms) =>
              if k < |ms| then Child(v, t) == Some(ms[k].value) && KidChanges(v, t, k) else Child(v, t) == None
            case JArray(es) =>
              if t.index != INVALID_INDEX && k < |es| then Child(v, t) == Some(es[k]) && KidChanges(v, t, k)
              else Child(v, t) == None
            case _ => Child(v, t) == None
  {
    hide Graft, WithKid;
    if Child(v, t).Some? {
      if v.JObject? { MemberKid(v, t); } else { PaddedKid(v, t); }
    }
  }

  /** Changing the child and leaving it out are what the pointer's functions say. */
  ghost predicate KidChanges(v: Json, t: Token, k: nat) {
    Child(v, t).Some? && Without(v, t) == WithoutKid(v, k) && forall w :: WithKid(v, k, w) == Graft(v, t, w)
  }

  lemma PutStep(v: Json, ts: seq<Token>, leaf: Option<Json>)
    requires ts != []
    ensures Put(v, ts, leaf) == Graft(v, ts[0], Put(Next(v, ts[0]), ts[1..], leaf))
    ensures AlreadyExist(v, ts) == (Here(v, ts[0]) && AlreadyExist(Next(v, ts[0]), ts[1..]))
  {
  }

  lemma PutNone(v: Json, ts: seq<Token>, leaf: Option<Json>)
    requires ts == []
    ensures Put(v, ts, leaf) == if leaf.Some? then leaf.value else v
    ensures AlreadyExist(v, ts)
  {
  }

  /** The child that the token selects, when it is there. */
  function KidIndex(v: Json, t: Token): nat {
    match v
    case JObject(ms) => Find(ms, t.name)
    case _ => t.index
  }

  /** `x` is the node that the tokens lead to from `v`, or a part of its tree. */
  ghost predicate Within(v: Value, ts: seq<Token>, x: Value)
    requires v.Valid()
    reads v.repr, x
    decreases |ts|
  {
    x.repr <= v.repr &&
    if ts == [] then x == v || v !in x.repr
    else
      var k := KidIndex(v.abs, ts[0]);
      Here(v.abs, ts[0]) && k < |v.kids| && Within(v.kids[k], ts[1..], x)
  }

  /** What may be put there: a tree of its own, or a part of what it is to replace. */
  ghost predicate Movable(v: Value, ts: seq<Token>, x: Value)
    requires v.Valid()
    reads v.repr, x, x.repr
  {
    x.Valid() && (x.repr !! v.repr || Within(v, ts, x))
  }

  /** Creates the path below `v`, and puts the value of `x`, if there is one, at its end: the tree becomes
      what the same pointer makes of its value. */
  method Place(v: Value, ts: seq<Token>, x: Value?) returns (exist: bool)
    requires v.Valid() && AllGenuine(ts)
    requires x != null ==> Movable(v, ts, x)
    modifies v.repr, if x != null then {x} else {}
    ensures v.Valid() && v.abs == Put(old(v.abs), ts, if x == null then None else Some(old(x.abs)))
    ensures exist == AlreadyExist(old(v.abs), ts)
    ensures forall o :: o in v.repr ==> o in old(v.repr) || fresh(o) || (x != null && o in old(x.repr))
    ensures x != null && x !in old(v.repr) ==> x.abs == JNull
    decreases |ts|, 0
  {
    hide Graft, Next, Here, WithKid, Genuine, Put, AlreadyExist;
    if ts == [] {
      PutNone(v.abs, ts, if x == null then None else Some(x.abs));
      if x != null { v.Take(x); }
      return true;
    }
    PutStep(v.abs, ts, if x == null then None else Some(x.abs));
    ghost var inside := x != null && Within(v, ts, x);
    ghost var kid := if inside then v.kids[KidIndex(v.abs, ts[0])] else v;
    assert inside ==> Within(kid, ts[1..], x) && x.repr <= kid.repr && v !in kid.repr;
    var c, here, k := v.Descend(ts[0]);
    assert inside ==> v.kids[k] == kid && Within(kid, ts[1..], x);
    assert !inside && x != null ==> x.repr !! v.repr;
    var there := PlaceBelow(v, k, ts[1..], x);
    exist := here && there;
  }

  /** The same for the `k`-th child. */
  method PlaceBelow(v: Value, k: nat, ts: seq<Token>, x: Value?) returns (exist: bool)
    requires v.Valid() && !v.kind.Leaf? && k < |v.kids| && AllGenuine(ts)
    requires x != null ==> Movable(v.kids[k], ts, x) && (x.repr !! v.repr || x.repr <= v.kids[k].repr)
    modifies v.repr, if x != null then {x} else {}
    ensures v.Valid()
    ensures v.abs == WithKid(old(v.abs), k, Put(old(v.kids[k].abs), ts, if x == null then None else Some(old(x.abs))))
    ensures exist == AlreadyExist(old(v.kids[k].abs), ts)
    ensures forall o :: o in v.repr ==> o in old(v.repr) || fresh(o) || (x != null && o in old(x.repr))
    ensures x != null && x !in old(v.repr) ==> x.abs == JNull
    decreases |ts|, 1
  {
    hide WithKid, Genuine, Put, AlreadyExist;
    exist := Place(v.kids[k], ts, x);
    forall i | 0 <= i < |v.kids| && i != k
      ensures v.kids[i].Valid() && v.kids[i].repr == old(v.kids[i].repr) && v.kids[i].abs == old(v.kids[i].abs)
    {
      assert old(v.kids[i].repr) !! old(v.kids[k].repr);
    }
    v.Refresh(k);
  }

  lemma SameKid(v: Json, k: nat)
    ensures v.JArray? && k < |v.elems| ==> WithKid(v, k, v.elems[k]) == v
    ensures v.JObject? && k < |v.members| ==> WithKid(v, k, v.members[k].value) == v
  {
  }

  /** Erases what the pointer resolves to, and says whether there was anything to erase. */
  method Remove(v: Value, ts: seq<Token>) returns (ok: bool)
    requires v.Valid() && AllGenuine(ts)
    modifies v.repr
    ensures v.Valid() && v.repr == old(v.repr)
    ensures ok <==> Erase(old(v.abs), ts).Some?
    ensures v.abs == if ok then Erase(old(v.abs), ts).value else old(v.abs)
    decreases |ts|
  {
    hide Child, Graft, WithKid, WithoutKid, Genuine, Without;
    if ts == [] { return false; }
    var k, found := v.Select(ts[0]);
    if !found { return false; }
    if |ts| == 1 {
      v.Drop(k);
      return true;
    }
    SameKid(v.abs, k);
    ok := Remove(v.kids[k], ts[1..]);
    forall i | 0 <= i < |v.kids| && i != k
      ensures v.kids[i].Valid() && v.kids[i].repr == old(v.kids[i].repr) && v.kids[i].abs == old(v.kids[i].abs)
    {
      assert old(v.kids[i].repr) !! old(v.kids[k].repr);
    }
    v.Refresh(k);
  }
}
