/** `makeFile` as the code is written. The walk mutates a deep copy through a `result`
    reference whose relation to the visited value depends on the path taken, so the model
    follows that relation, together with the walk's `key`, as a reference kind:

      Parent    `result[key]` is the visited value (object members; elements of a keyed
                array reached from a member)
      Self      `key` is empty and `result` is the visited value itself (the root; an
                element of a keyed array)
      OnArray   `result` is the array last visited as `Self`, and the visited value lies
                inside one of its elements
      Held(x)   `result` is the value `x`, which is not part of the output: a named
                property of that array, a character of such a property's text, or
                `undefined`

    A write in `Parent` mode changes the output. A write in `OnArray` mode sets a named
    property of the array: `JSON.stringify` does not write it out, but later visits read
    it back through `result[key]`, so the walk threads those properties. A write into a
    held value is skipped by the `instanceof Object` guard, since no translation is an
    array or an object. Reading a property of `undefined` or `null` throws a `TypeError`,
    and so does assigning to a character of a text, because module code runs in strict
    mode; both are modelled as `Crashed`. Array elements that are strings or numbers are
    matched on their value alone. */
module ReinjectionAsWritten {
  import opened Wrappers
  import opened JsonTree
  import opened NumberText
  import opened Extraction
  import opened Reinjection

  /** A JavaScript value the walk stores on an array or reads back from one. */
  datatype JsValue = Undefined | NaN | NullValue | Boolean(b: bool) | Number(n: int) | Text(s: string)

  datatype Ref = Parent | Self | OnArray | Held(x: JsValue)

  /** The named properties written so far onto the array that `OnArray` refers to. */
  type Props = map<string, JsValue>

  /** `Crashed` is a thrown `TypeError`; otherwise the rewritten node, the cursor and the
      array's named properties. */
  datatype Outcome<T> = Crashed | Walked(node: T, cursor: nat, props: Props)

  /** What `makeFile` ends with: a thrown `TypeError`, or the file and the number of
      items the walk used. */
  datatype FileOutcome = Threw | Wrote(file: Json, used: nat)

  /** No translation is an array or an object. The page only ever holds the service's
      text, a glossary text, an edited text or the original leaf. */
  predicate ScalarTranslations(items: seq<Item>) {
    forall j :: 0 <= j < |items| ==> items[j].to.None? || !items[j].to.value.IsContainer()
  }

  /** The values whose properties cannot be read. */
  predicate Nullish(x: JsValue) {
    x.Undefined? || x.NullValue?
  }

  /** `array[k]`: a property that was never written reads as `undefined`. */
  function PropOf(p: Props, k: string): JsValue {
    if k in p then p[k] else Undefined
  }

  /** The character that holds code unit `index` of `s`. Half of a surrogate pair is
      represented by its whole character, since a Dafny string cannot hold a lone
      surrogate; the walk only asks whether such a read gives a text. */
  function UnitAt(s: string, index: nat): (t: string)
    requires index < Utf16Length(s)
    ensures |t| == 1
    decreases |s|
  {
    if index < UnitsOf(s[0]) then [s[0]] else UnitAt(s[1..], index - UnitsOf(s[0]))
  }

  /** `x[index]` of a value that is not nullish: a code unit of a text, else `undefined`.
      Indices count UTF-16 code units, as `length` does. */
  function CharAt(x: JsValue, index: nat): (y: JsValue)
    ensures y != Undefined <==> x.Text? && index < Utf16Length(x.s)
    ensures y != Undefined ==> y.Text?
  {
    if x.Text? && index < Utf16Length(x.s) then Text(UnitAt(x.s, index)) else Undefined
  }

  /** Index 1 of an emoji is its second code unit, which is a text; index 1 of a
      one-character text of the Basic Multilingual Plane is `undefined`. */
  lemma CharAtCountsCodeUnits()
    ensures CharAt(Text("\U{1F600}"), 1).Text?
    ensures CharAt(Text("X"), 1) == Undefined
  {
    AstralCharacterIsTwoUnits();
  }

  /** How `JSON.stringify` writes a value: `undefined` is left out and `NaN` is `null`. */
  function Serialised(x: JsValue): Option<Json> {
    match x
    case Undefined => None
    case NaN => Some(Null)
    case NullValue => Some(Null)
    case Boolean(b) => Some(Bool(b))
    case Number(n) => Some(Num(n))
    case Text(s) => Some(Str(s))
  }

  /** The value `typeof value==='number' ? Number(to) : to` that a leaf visited on an
      array stores as the array's property. */
  function Stored(leaf: Json, to: Option<Json>): (x: JsValue)
    requires to.None? || !to.value.IsContainer()
    ensures Serialised(x) == Written(leaf, to)
    ensures leaf.Num? ==> x.Number? || x.NaN?
    ensures !leaf.Num? && to.Some? && to.value.Str? ==> x == Text(to.value.s)
  {
    if leaf.Num? then
      (if NumberOf(to).Num? then Number(NumberOf(to).n) else NaN)
    else if to.None? then Undefined
    else if to.value.Null? then NullValue
    else if to.value.Bool? then Boolean(to.value.b)
    else if to.value.Num? then Number(to.value.n)
    else Text(to.value.s)
  }

  /** The guard and write of a value-matched element:
      `if (result[key] && result[key][index]) result[key][index] = …`. `None` when the
      guard throws, or when the write lands on a character of a text; otherwise whether
      the write reaches the output. */
  function ElementWrite(m: Ref, key: string, index: nat, e: Json, p: Props): (w: Option<bool>)
    ensures w == Some(true) <==> m == Parent && Truthy(e)
  {
    match m
    case Parent => Some(Truthy(e))
    case Self => if CharAt(PropOf(p, key), index).Text? then None else Some(false)
    case OnArray => if CharAt(PropOf(p, key), index).Text? then None else Some(false)
    case Held(x) => if Nullish(x) then None else Some(false)
  }

  /** The reference for an element that is not matched on value:
      `recurse('', item, key ? result[key][index] : result)`; `None` when the read throws. */
  function ElementRef(m: Ref, key: string, index: nat, p: Props): (r: Option<Ref>)
    ensures r != Some(Parent)
    ensures r == Some(Self) <==> m == Parent
  {
    match m
    case Parent => Some(Self)
    case Self => HeldElement(key, index, p)
    case OnArray => HeldElement(key, index, p)
    case Held(x) => if key == "" then Some(Held(x)) else None
  }

  /** `result[key][index]` with `result` the array: the array itself when the key is
      empty, a character of the property's text, or `undefined`. */
  function HeldElement(key: string, index: nat, p: Props): Option<Ref> {
    if key == "" then Some(OnArray)
    else if Nullish(PropOf(p, key)) then None
    else Some(Held(CharAt(PropOf(p, key), index)))
  }

  /** The reference for an object member: `recurse(k, val, key ? result[key] : result)`;
      `None` when the read throws. A `Self` visit has an empty key, so `result` is the
      object itself. */
  function MemberRef(m: Ref, key: string, p: Props): (r: Option<Ref>)
    ensures r == Some(Parent) <==> m == Parent || m == Self
  {
    match m
    case Parent => Some(Parent)
    case Self => Some(Parent)
    case OnArray => if key == "" then Some(OnArray) else Some(Held(PropOf(p, key)))
    case Held(x) =>
      if key == "" then Some(Held(x))
      else if Nullish(x) then None
      else Some(Held(Undefined))
  }

  /** An array element the code matches on value: the next item's original equals it
      and it is a string or a number; the item's key is not consulted. */
  predicate ValueMatch(items: seq<Item>, c: nat, e: Json) {
    c < |items| && (e.Str? || e.Num?) && items[c].from == e
  }

  /** A scalar the code matches: the next item's original equals it and either the keys
      agree or the walk has no key. */
  predicate LeafMatch(items: seq<Item>, c: nat, key: string, v: Json) {
    c < |items| && (items[c].key == key || key == "") && items[c].from == v
  }

  predicate Moved(items: seq<Item>, c: nat, c': nat) {
    c <= c' && (c <= |items| ==> c' <= |items|)
  }

  /** A visit that cannot change the output: under an enclosing array, or through a
      value that is not part of the output. */
  predicate Detached(m: Ref) {
    m.OnArray? || m.Held?
  }

  function Walk(m: Ref, key: string, v: Json, items: seq<Item>, c: nat, p: Props): (r: Outcome<Option<Json>>)
    requires ScalarTranslations(items)
    ensures r.Walked? ==> Moved(items, c, r.cursor)
    ensures r.Walked? && m != Parent ==> r.node.Some?
    ensures r.Walked? && (m == Parent || m == Self) ==> r.props == p
    ensures r.Walked? && (Detached(m) || (m == Self && !v.Obj?)) ==> r.node == Some(v)
    decreases v, 0
  {
    match v
    case Arr(elems) =>
      (match WalkElems(m, key, elems, items, c, 0, if m == Self then map[] else p)
       case Crashed => Crashed
       case Walked(es, c', p') => Walked(Some(Arr(es)), c', if m == Self then p else p'))
    case Obj(members) =>
      if members == [] then Walked(Some(v), c, p)
      else if MemberRef(m, key, p).None? then Crashed
      else
        (match WalkMembers(MemberRef(m, key, p).value, members, items, c, p)
         case Crashed => Crashed
         case Walked(ms, c', p') => Walked(Some(Obj(ms)), c', p'))
    case _ =>
      if !LeafMatch(items, c, key, v) then Walked(Some(v), c, p)
      else if m == Parent then Walked(Written(v, items[c].to), c + 1, p)
      else if m == OnArray then Walked(Some(v), c + 1, p[key := Stored(v, items[c].to)])
      else Walked(Some(v), c + 1, p)
  }

  /** The elements of an array from position `index` on. */
  function WalkElems(m: Ref, key: string, elems: seq<Json>, items: seq<Item>, c: nat, index: nat, p: Props): (r: Outcome<seq<Json>>)
    requires ScalarTranslations(items)
    ensures r.Walked? ==> Moved(items, c, r.cursor) && |r.node| == |elems|
    ensures r.Walked? && m == Parent ==> r.props == p
    ensures r.Walked? && m != Parent ==> r.node == elems
    decreases elems, 2
  {
    if elems == [] then Walked([], c, p)
    else
      match WalkElem(m, key, index, elems[0], items, c, p)
      case Crashed => Crashed
      case Walked(e, c1, p1) =>
        match WalkElems(m, key, elems[1..], items, c1, index + 1, p1)
        case Crashed => Crashed
        case Walked(es, c2, p2) => Walked([e] + es, c2, p2)
  }

  /** One element of an array, at position `index`, walked in mode `m`. */
  function WalkElem(m: Ref, key: string, index: nat, e: Json, items: seq<Item>, c: nat, p: Props): (r: Outcome<Json>)
    requires ScalarTranslations(items)
    ensures r.Walked? ==> Moved(items, c, r.cursor)
    ensures r.Walked? && m == Parent ==> r.props == p
    ensures r.Walked? && m != Parent ==> r.node == e
    decreases e, 1
  {
    if ValueMatch(items, c, e) then
      match ElementWrite(m, key, index, e, p)
      case None => Crashed
      case Some(reaches) => Walked(if reaches then AsElement(Written(e, items[c].to)) else e, c + 1, p)
    else
      match ElementRef(m, key, index, p)
      case None => Crashed
      case Some(m') =>
        match Walk(m', "", e, items, c, p)
        case Crashed => Crashed
        case Walked(n, c', p') => Walked(AsElement(n), c', p')
  }

  function WalkMembers(m: Ref, members: seq<(string, Json)>, items: seq<Item>, c: nat, p: Props): (r: Outcome<seq<(string, Json)>>)
    requires ScalarTranslations(items)
    ensures r.Walked? ==> Moved(items, c, r.cursor) && |r.node| <= |members|
    ensures r.Walked? && m == Parent ==> r.props == p
    ensures r.Walked? && Detached(m) ==> r.node == members
    decreases members, 2
  {
    if members == [] then Walked([], c, p)
    else
      match WalkMember(m, members[0], items, c, p)
      case Crashed => Crashed
      case Walked(n, c1, p1) =>
        match WalkMembers(m, members[1..], items, c1, p1)
        case Crashed => Crashed
        case Walked(ms, c2, p2) => Walked(AsMembers(members[0].0, n) + ms, c2, p2)
  }

  function WalkMember(m: Ref, member: (string, Json), items: seq<Item>, c: nat, p: Props): (r: Outcome<Option<Json>>)
    requires ScalarTranslations(items)
    ensures r.Walked? ==> Moved(items, c, r.cursor)
    ensures r.Walked? && m == Parent ==> r.props == p
    ensures r.Walked? && Detached(m) ==> r.node == Some(member.1)
    decreases member, 1
  {
    Walk(m, member.0, member.1, items, c, p)
  }

  /** `makeFile` as written: `recurse('', output, output)` on the deep copy when there
      are items; with none, the copy unchanged. */
  function MakeFileAsWritten(doc: Json, items: seq<Item>): (r: FileOutcome)
    requires NoEmptyKeys(doc)
    requires ScalarTranslations(items)
    ensures items == [] ==> r == Wrote(doc, 0)
    ensures r.Wrote? ==> r.used <= |items|
    ensures r.Wrote? && !doc.Obj? ==> r.file == doc
  {
    if items == [] then Wrote(doc, 0)
    else
      match Walk(Self, "", doc, items, 0, map[])
      case Crashed => Threw
      case Walked(n, c, _) => Wrote(AsElement(n), c)
  }

  // ---------------------------------------------------------------------------------
  // Identity: translating every item to its own original changes nothing that is written

  predicate SelfTranslated(items: seq<Item>) {
    forall j :: 0 <= j < |items| ==> items[j].to == Some(items[j].from)
  }

  lemma {:induction false} WalkIdentity(m: Ref, key: string, v: Json, items: seq<Item>, c: nat, p: Props)
    requires ScalarTranslations(items) && SelfTranslated(items)
    ensures Walk(m, key, v, items, c, p).Walked? ==> Walk(m, key, v, items, c, p).node == Some(v)
    decreases v, 0
  {
    match v
    case Arr(elems) => WalkElemsIdentity(m, key, elems, items, c, 0, if m == Self then map[] else p);
    case Obj(members) =>
      if members != [] && MemberRef(m, key, p).Some? {
        WalkMembersIdentity(MemberRef(m, key, p).value, members, items, c, p);
      }
    case _ =>
  }

  lemma {:induction false} WalkElemsIdentity(m: Ref, key: string, elems: seq<Json>, items: seq<Item>, c: nat, index: nat, p: Props)
    requires ScalarTranslations(items) && SelfTranslated(items)
    ensures WalkElems(m, key, elems, items, c, index, p).Walked? ==> WalkElems(m, key, elems, items, c, index, p).node == elems
    decreases elems, 2
  {
    if elems != [] {
      WalkElemIdentity(m, key, index, elems[0], items, c, p);
      var r1 := WalkElem(m, key, index, elems[0], items, c, p);
      if r1.Walked? {
        WalkElemsIdentity(m, key, elems[1..], items, r1.cursor, index + 1, r1.props);
        assert elems == [elems[0]] + elems[1..];
      }
    }
  }

  lemma {:induction false} WalkElemIdentity(m: Ref, key: string, index: nat, e: Json, items: seq<Item>, c: nat, p: Props)
    requires ScalarTranslations(items) && SelfTranslated(items)
    ensures WalkElem(m, key, index, e, items, c, p).Walked? ==> WalkElem(m, key, index, e, items, c, p).node == e
    decreases e, 1
  {
    if !ValueMatch(items, c, e) && ElementRef(m, key, index, p).Some? {
      WalkIdentity(ElementRef(m, key, index, p).value, "", e, items, c, p);
    }
  }

  lemma {:induction false} WalkMembersIdentity(m: Ref, members: seq<(string, Json)>, items: seq<Item>, c: nat, p: Props)
    requires ScalarTranslations(items) && SelfTranslated(items)
    ensures WalkMembers(m, members, items, c, p).Walked? ==> WalkMembers(m, members, items, c, p).node == members
    decreases members, 2
  {
    if members != [] {
      WalkMemberIdentity(m, members[0], items, c, p);
      var r1 := WalkMember(m, members[0], items, c, p);
      if r1.Walked? {
        WalkMembersIdentity(m, members[1..], items, r1.cursor, r1.props);
        assert members == [members[0]] + members[1..];
      }
    }
  }

  lemma {:induction false} WalkMemberIdentity(m: Ref, member: (string, Json), items: seq<Item>, c: nat, p: Props)
    requires ScalarTranslations(items) && SelfTranslated(items)
    ensures WalkMember(m, member, items, c, p).Walked? ==> WalkMember(m, member, items, c, p).node == Some(member.1)
    decreases member, 1
  {
    WalkIdentity(m, member.0, member.1, items, c, p);
  }

  /** If every item is translated to its own original, the file written is the uploaded
      document, unless the walk throws. */
  lemma MakeFileAsWrittenIdentity(doc: Json, items: seq<Item>)
    requires NoEmptyKeys(doc)
    requires ScalarTranslations(items) && SelfTranslated(items)
    ensures MakeFileAsWritten(doc, items).Wrote? ==> MakeFileAsWritten(doc, items).file == doc
  {
    WalkIdentity(Self, "", doc, items, 0, map[]);
  }

  // ---------------------------------------------------------------------------------
  // Agreement with the corrected walk on documents without arrays

  predicate NoArrays(v: Json)
    decreases v
  {
    match v
    case Arr(_) => false
    case Obj(members) => NoArraysAmong(members)
    case _ => true
  }

  predicate NoArraysAmong(members: seq<(string, Json)>)
    decreases members
  {
    members == [] || (NoArraysMember(members[0]) && NoArraysAmong(members[1..]))
  }

  predicate NoArraysMember(m: (string, Json))
    decreases m
  {
    NoArrays(m.1)
  }

  lemma {:induction false} ParentWalkIsPlace(key: string, v: Json, items: seq<Item>, c: nat, p: Props)
    requires key != ""
    requires NoArrays(v) && NoEmptyKeys(v) && ScalarTranslations(items)
    ensures Walk(Parent, key, v, items, c, p) == Walked(Place(key, v, items, c).0, Place(key, v, items, c).1, p)
    decreases v, 0
  {
    match v
    case Obj(members) => ParentWalkMembersIsPlace(members, items, c, p);
    case _ =>
  }

  lemma {:induction false} ParentWalkMembersIsPlace(members: seq<(string, Json)>, items: seq<Item>, c: nat, p: Props)
    requires NoArraysAmong(members) && NoEmptyKeysAmong(members) && ScalarTranslations(items)
    ensures WalkMembers(Parent, members, items, c, p) == Walked(PlaceAmong(members, items, c).0, PlaceAmong(members, items, c).1, p)
    decreases members, 2
  {
    if members != [] {
      ParentWalkMemberIsPlace(members[0], items, c, p);
      ParentWalkMembersIsPlace(members[1..], items, PlaceMember(members[0], items, c).1, p);
    }
  }

  lemma {:induction false} ParentWalkMemberIsPlace(member: (string, Json), items: seq<Item>, c: nat, p: Props)
    requires NoArraysMember(member) && NoEmptyKeyMember(member) && ScalarTranslations(items)
    ensures WalkMember(Parent, member, items, c, p) == Walked(PlaceMember(member, items, c).0, PlaceMember(member, items, c).1, p)
    decreases member, 1
  {
    ParentWalkIsPlace(member.0, member.1, items, c, p);
  }

  /** On an object document with no arrays anywhere, the walk as written never throws
      and writes the same file as the corrected walk: the defects are all about arrays
      and the root. */
  lemma AsWrittenAgreesWithoutArrays(doc: Json, items: seq<Item>)
    requires doc.Obj? && NoArrays(doc) && NoEmptyKeys(doc) && ScalarTranslations(items)
    ensures MakeFileAsWritten(doc, items).Wrote?
    ensures MakeFileAsWritten(doc, items).file == MakeFile(doc, items)
  {
    if items != [] {
      ParentWalkMembersIsPlace(doc.members, items, 0, map[]);
    }
  }

  // ---------------------------------------------------------------------------------
  // Documents on which the walk as written departs from the extraction

  /** Unfolding the walk over a non-empty list of elements or members. */
  lemma WalkElemsCons(m: Ref, key: string, e: Json, rest: seq<Json>, items: seq<Item>, c: nat, index: nat, p: Props)
    requires ScalarTranslations(items)
    ensures WalkElem(m, key, index, e, items, c, p).Crashed? ==> WalkElems(m, key, [e] + rest, items, c, index, p).Crashed?
    ensures WalkElem(m, key, index, e, items, c, p).Walked? ==>
      var r1 := WalkElem(m, key, index, e, items, c, p);
      var r2 := WalkElems(m, key, rest, items, r1.cursor, index + 1, r1.props);
      WalkElems(m, key, [e] + rest, items, c, index, p)
        == if r2.Crashed? then Crashed else Walked([r1.node] + r2.node, r2.cursor, r2.props)
  {
    assert ([e] + rest)[0] == e && ([e] + rest)[1..] == rest;
  }

  lemma WalkMembersCons(m: Ref, member: (string, Json), rest: seq<(string, Json)>, items: seq<Item>, c: nat, p: Props)
    requires ScalarTranslations(items)
    ensures WalkMember(m, member, items, c, p).Crashed? ==> WalkMembers(m, [member] + rest, items, c, p).Crashed?
    ensures WalkMember(m, member, items, c, p).Walked? ==>
      var r1 := WalkMember(m, member, items, c, p);
      var r2 := WalkMembers(m, rest, items, r1.cursor, r1.props);
      WalkMembers(m, [member] + rest, items, c, p)
        == if r2.Crashed? then Crashed else Walked(AsMembers(member.0, r1.node) + r2.node, r2.cursor, r2.props)
  {
    assert ([member] + rest)[0] == member && ([member] + rest)[1..] == rest;
  }

  lemma PlaceInCons(key: string, e: Json, rest: seq<Json>, items: seq<Item>, c: nat)
    ensures PlaceIn(key, [e] + rest, items, c)
         == ([AsElement(Place(key, e, items, c).0)] + PlaceIn(key, rest, items, Place(key, e, items, c).1).0,
             PlaceIn(key, rest, items, Place(key, e, items, c).1).1)
  {
    assert ([e] + rest)[0] == e && ([e] + rest)[1..] == rest;
  }

  lemma PlaceAmongCons(member: (string, Json), rest: seq<(string, Json)>, items: seq<Item>, c: nat)
    ensures PlaceAmong([member] + rest, items, c)
         == (AsMembers(member.0, PlaceMember(member, items, c).0) + PlaceAmong(rest, items, PlaceMember(member, items, c).1).0,
             PlaceAmong(rest, items, PlaceMember(member, items, c).1).1)
  {
    assert ([member] + rest)[0] == member && ([member] + rest)[1..] == rest;
  }

  /** A keyed string inside an object that sits in a top-level array is listed by
      extraction, but its translation never reaches the file: the member is visited with
      `result` bound to the array, and the write lands on a property of the array. */
  lemma MemberUnderRootArrayIsLost()
    ensures ExtractDocument(Arr([Obj([("a", Str("x"))])]), ["a"]) == [Item("a", Str("x"), Some(Str("x")), false, false)]
    ensures MakeFileAsWritten(Arr([Obj([("a", Str("x"))])]), [Item("a", Str("x"), Some(Str("y")), false, false)])
         == Wrote(Arr([Obj([("a", Str("x"))])]), 1)
    ensures MakeFile(Arr([Obj([("a", Str("x"))])]), [Item("a", Str("x"), Some(Str("y")), false, false)])
         == Arr([Obj([("a", Str("y"))])])
  {
    var items := [Item("a", Str("x"), Some(Str("y")), false, false)];
    var member := ("a", Str("x"));
    var o := Obj([member]);
    var p1 := map[]["a" := Text("y")];
    assert WalkMember(OnArray, member, items, 0, map[]) == Walked(Some(Str("x")), 1, p1);
    WalkMembersCons(OnArray, member, [], items, 0, map[]);
    assert [member] + [] == [member];
    assert Walk(OnArray, "", o, items, 0, map[]) == Walked(Some(o), 1, p1);
    WalkElemsCons(Self, "", o, [], items, 0, 0, map[]);
    assert [o] + [] == [o];
    assert Place("a", Str("x"), items, 0) == (Some(Str("y")), 1);
    assert PlaceMember(member, items, 0) == (Some(Str("y")), 1);
    PlaceAmongCons(member, [], items, 0);
    assert PlaceAmong([], items, 1) == ([], 1);
    assert AsMembers("a", Some(Str("y"))) + [] == [("a", Str("y"))];
    assert PlaceAmong([member], items, 0) == ([("a", Str("y"))], 1);
    assert Place("", o, items, 0) == (Some(Obj([("a", Str("y"))])), 1);
    PlaceInCons("", o, [], items, 0);
    assert PlaceIn("", [], items, 1) == ([], 1);
    assert [AsElement(Some(Obj([("a", Str("y"))])))] + [] == [Obj([("a", Str("y"))])];
    assert PlaceIn("", [o], items, 0) == ([Obj([("a", Str("y"))])], 1);
    assert ExtractIn("", [o], ["a"]) == Extract("", o, ["a"]) + ExtractIn("", [], ["a"]);
    assert ExtractAmong([member], ["a"]) == ExtractMember(member, ["a"]) + ExtractAmong([], ["a"]);
  }

  /** An array inside an object inside a top-level array makes the walk throw as soon
      as it meets an element it does not match on value, when no earlier element wrote
      a property of that key onto the top-level array: it reads an index of
      `result[key]`, which is `undefined` there. */
  lemma NestedArrayUnderRootArrayThrows()
    ensures MakeFileAsWritten(Arr([Obj([("a", Arr([Obj([("b", Str("x"))])]))])]), [Item("b", Str("x"), Some(Str("y")), false, false)])
         == Threw
  {
    var items := [Item("b", Str("x"), Some(Str("y")), false, false)];
    var leaf := ("b", Str("x"));
    var inner := Obj([leaf]);
    var member := ("a", Arr([inner]));
    var outer := Obj([member]);
    WalkElemsCons(OnArray, "a", inner, [], items, 0, 0, map[]);
    assert [inner] + [] == [inner];
    WalkMembersCons(OnArray, member, [], items, 0, map[]);
    assert [member] + [] == [member];
    WalkElemsCons(Self, "", outer, [], items, 0, 0, map[]);
    assert [outer] + [] == [outer];
  }

  /** The intended walk fills the same nested leaf. */
  lemma NestedArrayUnderRootArrayIsFilled()
    ensures MakeFile(Arr([Obj([("a", Arr([Obj([("b", Str("x"))])]))])]), [Item("b", Str("x"), Some(Str("y")), false, false)])
         == Arr([Obj([("a", Arr([Obj([("b", Str("y"))])]))])])
  {
    var items := [Item("b", Str("x"), Some(Str("y")), false, false)];
    var leaf := ("b", Str("x"));
    var inner := Obj([leaf]);
    var member := ("a", Arr([inner]));
    var outer := Obj([member]);
    var inner' := Obj([("b", Str("y"))]);
    var outer' := Obj([("a", Arr([inner']))]);
    assert PlaceMember(leaf, items, 0) == (Some(Str("y")), 1);
    PlaceAmongCons(leaf, [], items, 0);
    assert [leaf] + [] == [leaf];
    assert PlaceAmong([], items, 1) == ([], 1);
    assert AsMembers("b", Some(Str("y"))) + [] == [("b", Str("y"))];
    assert PlaceAmong([leaf], items, 0) == ([("b", Str("y"))], 1);
    assert Place("a", inner, items, 0) == (Some(inner'), 1);
    PlaceInCons("a", inner, [], items, 0);
    assert PlaceIn("a", [], items, 1) == ([], 1);
    assert [AsElement(Some(inner'))] + [] == [inner'];
    assert PlaceIn("a", [inner], items, 0) == ([inner'], 1);
    assert PlaceMember(member, items, 0) == (Some(Arr([inner'])), 1);
    PlaceAmongCons(member, [], items, 0);
    assert AsMembers("a", Some(Arr([inner']))) + [] == [("a", Arr([inner']))];
    assert PlaceAmong([member], items, 0) == ([("a", Arr([inner']))], 1);
    assert Place("", outer, items, 0) == (Some(outer'), 1);
    PlaceInCons("", outer, [], items, 0);
    assert PlaceIn("", [], items, 1) == ([], 1);
    assert [AsElement(Some(outer'))] + [] == [outer'];
    assert PlaceIn("", [outer], items, 0) == ([outer'], 1);
  }

  /** An earlier element's write is read back by a later one. The first object stores
      its translation as the property `a` of the top-level array; the second object's
      nested array then reads `array.a[0]`, a character of that text, and walks on
      through it without throwing. Both items are used and the file is the upload. */
  lemma EarlierSiblingWriteIsReadBack()
    ensures ExtractDocument(Arr([Obj([("a", Str("x"))]), Obj([("a", Arr([Obj([("b", Str("y"))])]))])]), ["a", "b"])
         == [Item("a", Str("x"), Some(Str("x")), false, false), Item("b", Str("y"), Some(Str("y")), false, false)]
    ensures MakeFileAsWritten(Arr([Obj([("a", Str("x"))]), Obj([("a", Arr([Obj([("b", Str("y"))])]))])]),
                              [Item("a", Str("x"), Some(Str("X")), false, false), Item("b", Str("y"), Some(Str("Y")), false, false)])
         == Wrote(Arr([Obj([("a", Str("x"))]), Obj([("a", Arr([Obj([("b", Str("y"))])]))])]), 2)
  {
    EarlierSiblingExtraction();
    EarlierSiblingWalk();
  }

  lemma EarlierSiblingExtraction()
    ensures ExtractDocument(Arr([Obj([("a", Str("x"))]), Obj([("a", Arr([Obj([("b", Str("y"))])]))])]), ["a", "b"])
         == [Item("a", Str("x"), Some(Str("x")), false, false), Item("b", Str("y"), Some(Str("y")), false, false)]
  {
    var sel := ["a", "b"];
    var first := ("a", Str("x"));
    var leaf := ("b", Str("y"));
    var inner := Obj([leaf]);
    var second := ("a", Arr([inner]));
    var o1 := Obj([first]);
    var o2 := Obj([second]);
    assert [o1, o2][1..] == [o2];
    assert [o2][1..] == [];
    assert ExtractAmong([first], sel) == ExtractMember(first, sel) + ExtractAmong([], sel);
    assert ExtractAmong([leaf], sel) == ExtractMember(leaf, sel) + ExtractAmong([], sel);
    assert ExtractIn("a", [inner], sel) == Extract("a", inner, sel) + ExtractIn("a", [], sel);
    assert ExtractAmong([second], sel) == ExtractMember(second, sel) + ExtractAmong([], sel);
    assert ExtractIn("", [o2], sel) == Extract("", o2, sel) + ExtractIn("", [], sel);
    assert ExtractIn("", [o1, o2], sel) == Extract("", o1, sel) + ExtractIn("", [o2], sel);
  }

  lemma EarlierSiblingWalk()
    ensures MakeFileAsWritten(Arr([Obj([("a", Str("x"))]), Obj([("a", Arr([Obj([("b", Str("y"))])]))])]),
                              [Item("a", Str("x"), Some(Str("X")), false, false), Item("b", Str("y"), Some(Str("Y")), false, false)])
         == Wrote(Arr([Obj([("a", Str("x"))]), Obj([("a", Arr([Obj([("b", Str("y"))])]))])]), 2)
  {
    var items := [Item("a", Str("x"), Some(Str("X")), false, false), Item("b", Str("y"), Some(Str("Y")), false, false)];
    var o1 := Obj([("a", Str("x"))]);
    var o2 := Obj([("a", Arr([Obj([("b", Str("y"))])]))]);
    var p1 := map[]["a" := Text("X")];
    FirstObjectStoresProperty(items[1]);
    SecondObjectReadsProperty(items);
    WalkElemsCons(Self, "", o2, [], items, 1, 1, p1);
    assert [o2] + [] == [o2];
    WalkElemsCons(Self, "", o1, [o2], items, 0, 0, map[]);
    assert [o1] + [o2] == [o1, o2];
  }

  /** The second element reads the stored property back: `array.a[0]` is the text "X",
      and the nested object is walked through it without a write. */
  lemma SecondObjectReadsProperty(items: seq<Item>)
    requires |items| >= 2 && ScalarTranslations(items)
    requires items[1] == Item("b", Str("y"), Some(Str("Y")), false, false)
    ensures WalkElem(Self, "", 1, Obj([("a", Arr([Obj([("b", Str("y"))])]))]), items, 1, map[]["a" := Text("X")])
         == Walked(Obj([("a", Arr([Obj([("b", Str("y"))])]))]), 2, map[]["a" := Text("X")])
  {
    var leaf := ("b", Str("y"));
    var inner := Obj([leaf]);
    var second := ("a", Arr([inner]));
    var o2 := Obj([second]);
    var p1 := map[]["a" := Text("X")];
    HeldTextWalksInner(items);
    WalkElemsCons(OnArray, "a", inner, [], items, 1, 0, p1);
    assert [inner] + [] == [inner];
    assert WalkElems(OnArray, "a", [inner], items, 1, 0, p1) == Walked([inner], 2, p1);
    assert WalkMember(OnArray, second, items, 1, p1) == Walked(Some(Arr([inner])), 2, p1);
    WalkMembersCons(OnArray, second, [], items, 1, p1);
    assert [second] + [] == [second];
    assert WalkMembers(OnArray, [second], items, 1, p1) == Walked([second], 2, p1);
    assert MemberRef(OnArray, "", p1) == Some(OnArray);
    assert Walk(OnArray, "", o2, items, 1, p1) == Walked(Some(o2), 2, p1);
    assert ElementRef(Self, "", 1, p1) == Some(OnArray);
  }

  lemma HeldTextWalksInner(items: seq<Item>)
    requires |items| >= 2 && ScalarTranslations(items)
    requires items[1] == Item("b", Str("y"), Some(Str("Y")), false, false)
    ensures WalkElem(OnArray, "a", 0, Obj([("b", Str("y"))]), items, 1, map[]["a" := Text("X")])
         == Walked(Obj([("b", Str("y"))]), 2, map[]["a" := Text("X")])
  {
    var leaf := ("b", Str("y"));
    var inner := Obj([leaf]);
    var p1 := map[]["a" := Text("X")];
    var held := Held(Text("X"));
    assert WalkMember(held, leaf, items, 1, p1) == Walked(Some(Str("y")), 2, p1);
    WalkMembersCons(held, leaf, [], items, 1, p1);
    assert [leaf] + [] == [leaf];
    assert WalkMembers(held, [leaf], items, 1, p1) == Walked([leaf], 2, p1);
    assert MemberRef(held, "", p1) == Some(held);
    assert Walk(held, "", inner, items, 1, p1) == Walked(Some(inner), 2, p1);
    assert CharAt(Text("X"), 0) == Text("X");
    assert ElementRef(OnArray, "a", 0, p1) == Some(held);
  }

  /** The first element `{"a": "x"}` of a top-level array, with `x` translated to `X`,
      stores `X` as the array's property `a` and changes nothing in the output. */
  lemma FirstObjectStoresProperty(next: Item)
    requires next.to.None? || !next.to.value.IsContainer()
    ensures ScalarTranslations([Item("a", Str("x"), Some(Str("X")), false, false), next])
    ensures WalkElem(Self, "", 0, Obj([("a", Str("x"))]), [Item("a", Str("x"), Some(Str("X")), false, false), next], 0, map[])
         == Walked(Obj([("a", Str("x"))]), 1, map["a" := Text("X")])
  {
    var items := [Item("a", Str("x"), Some(Str("X")), false, false), next];
    var first := ("a", Str("x"));
    var p1 := map["a" := Text("X")];
    assert WalkMember(OnArray, first, items, 0, map[]) == Walked(Some(Str("x")), 1, p1);
    WalkMembersCons(OnArray, first, [], items, 0, map[]);
    assert [first] + [] == [first];
    assert WalkMembers(OnArray, [first], items, 0, map[]) == Walked([first], 1, p1);
    assert Walk(OnArray, "", Obj([first]), items, 0, map[]) == Walked(Some(Obj([first])), 1, p1);
  }

  /** A later element whose array holds the text of a written property as its first
      element: the guard reads `array.a[0]`, a character of the stored text, and the
      assignment to that character throws in strict mode. */
  lemma WriteIntoStoredTextThrows()
    ensures MakeFileAsWritten(Arr([Obj([("a", Str("x"))]), Obj([("a", Arr([Str("y")]))])]),
                              [Item("a", Str("x"), Some(Str("X")), false, false), Item("a", Str("y"), Some(Str("Y")), false, false)])
         == Threw
  {
    var items := [Item("a", Str("x"), Some(Str("X")), false, false), Item("a", Str("y"), Some(Str("Y")), false, false)];
    var first := ("a", Str("x"));
    var second := ("a", Arr([Str("y")]));
    var o1 := Obj([first]);
    var o2 := Obj([second]);
    var p1 := map[]["a" := Text("X")];
    FirstObjectStoresProperty(items[1]);
    assert ElementWrite(OnArray, "a", 0, Str("y"), p1) == None;
    assert WalkElem(OnArray, "a", 0, Str("y"), items, 1, p1) == Crashed;
    WalkElemsCons(OnArray, "a", Str("y"), [], items, 1, 0, p1);
    assert [Str("y")] + [] == [Str("y")];
    assert Walk(OnArray, "a", Arr([Str("y")]), items, 1, p1) == Crashed;
    WalkMembersCons(OnArray, second, [], items, 1, p1);
    assert [second] + [] == [second];
    assert MemberRef(OnArray, "", p1) == Some(OnArray);
    assert Walk(OnArray, "", o2, items, 1, p1) == Crashed;
    assert ElementRef(Self, "", 1, p1) == Some(OnArray);
    assert WalkElem(Self, "", 1, o2, items, 1, p1) == Crashed;
    WalkElemsCons(Self, "", o2, [], items, 1, 1, p1);
    WalkElemsCons(Self, "", o1, [o2], items, 0, 0, map[]);
    assert [o1] + [o2] == [o1, o2];
  }

  /** A document that is a single string is listed under the empty key, but the walk
      holds the string itself as `result` and cannot assign into it. */
  lemma ScalarRootIsNotWritten()
    ensures ExtractDocument(Str("hello"), [""]) == [Item("", Str("hello"), Some(Str("hello")), false, false)]
    ensures MakeFileAsWritten(Str("hello"), [Item("", Str("hello"), Some(Str("bonjour")), false, false)])
         == Wrote(Str("hello"), 1)
    ensures MakeFile(Str("hello"), [Item("", Str("hello"), Some(Str("bonjour")), false, false)]) == Str("bonjour")
  {
  }

  /** An array element is matched on its value alone: with only `title` selected, the
      translation of the title is written into an earlier array element that happens to
      hold the same text, and the title itself stays untranslated. */
  lemma ArrayElementMatchedOnValueOnly()
    ensures ExtractDocument(Obj([("tags", Arr([Str("Hello")])), ("title", Str("Hello"))]), ["title"])
         == [Item("title", Str("Hello"), Some(Str("Hello")), false, false)]
    ensures MakeFileAsWritten(Obj([("tags", Arr([Str("Hello")])), ("title", Str("Hello"))]), [Item("title", Str("Hello"), Some(Str("Bonjour")), false, false)])
         == Wrote(Obj([("tags", Arr([Str("Bonjour")])), ("title", Str("Hello"))]), 1)
    ensures MakeFile(Obj([("tags", Arr([Str("Hello")])), ("title", Str("Hello"))]), [Item("title", Str("Hello"), Some(Str("Bonjour")), false, false)])
         == Obj([("tags", Arr([Str("Hello")])), ("title", Str("Bonjour"))])
  {
    ValueOnlyExtraction();
    ValueOnlyAsWritten();
    ValueOnlyCorrected();
  }

  lemma ValueOnlyExtraction()
    ensures ExtractDocument(Obj([("tags", Arr([Str("Hello")])), ("title", Str("Hello"))]), ["title"])
         == [Item("title", Str("Hello"), Some(Str("Hello")), false, false)]
  {
    var tags := ("tags", Arr([Str("Hello")]));
    var title := ("title", Str("Hello"));
    var sel := ["title"];
    assert [tags, title] == [tags] + [title];
    assert ExtractIn("tags", [Str("Hello")], sel) == Extract("tags", Str("Hello"), sel) + ExtractIn("tags", [], sel);
    assert ExtractAmong([title], sel) == ExtractMember(title, sel) + ExtractAmong([], sel);
    assert ExtractAmong([tags, title], sel) == ExtractMember(tags, sel) + ExtractAmong([title], sel);
  }

  lemma ValueOnlyAsWritten()
    ensures MakeFileAsWritten(Obj([("tags", Arr([Str("Hello")])), ("title", Str("Hello"))]), [Item("title", Str("Hello"), Some(Str("Bonjour")), false, false)])
         == Wrote(Obj([("tags", Arr([Str("Bonjour")])), ("title", Str("Hello"))]), 1)
  {
    var items := [Item("title", Str("Hello"), Some(Str("Bonjour")), false, false)];
    var tags := ("tags", Arr([Str("Hello")]));
    var title := ("title", Str("Hello"));
    assert [tags, title] == [tags] + [title];
    assert [title] + [] == [title];
    assert WalkElem(Parent, "tags", 0, Str("Hello"), items, 0, map[]) == Walked(Str("Bonjour"), 1, map[]);
    WalkElemsCons(Parent, "tags", Str("Hello"), [], items, 0, 0, map[]);
    assert [Str("Hello")] + [] == [Str("Hello")];
    assert [Str("Bonjour")] + [] == [Str("Bonjour")];
    assert WalkMember(Parent, tags, items, 0, map[]) == Walked(Some(Arr([Str("Bonjour")])), 1, map[]);
    assert WalkMember(Parent, title, items, 1, map[]) == Walked(Some(Str("Hello")), 1, map[]);
    WalkMembersCons(Parent, title, [], items, 1, map[]);
    assert WalkMembers(Parent, [], items, 1, map[]) == Walked([], 1, map[]);
    assert AsMembers("title", Some(Str("Hello"))) + [] == [title];
    assert WalkMembers(Parent, [title], items, 1, map[]) == Walked([title], 1, map[]);
    WalkMembersCons(Parent, tags, [title], items, 0, map[]);
    assert AsMembers("tags", Some(Arr([Str("Bonjour")]))) + [title] == [("tags", Arr([Str("Bonjour")])), title];
  }

  lemma ValueOnlyCorrected()
    ensures MakeFile(Obj([("tags", Arr([Str("Hello")])), ("title", Str("Hello"))]), [Item("title", Str("Hello"), Some(Str("Bonjour")), false, false)])
         == Obj([("tags", Arr([Str("Hello")])), ("title", Str("Bonjour"))])
  {
    var items := [Item("title", Str("Hello"), Some(Str("Bonjour")), false, false)];
    var tags := ("tags", Arr([Str("Hello")]));
    var title := ("title", Str("Hello"));
    assert [tags, title] == [tags] + [title];
    assert [title] + [] == [title];
    assert [Str("Hello")] + [] == [Str("Hello")];
    assert Place("tags", Str("Hello"), items, 0) == (Some(Str("Hello")), 0);
    PlaceInCons("tags", Str("Hello"), [], items, 0);
    assert PlaceMember(tags, items, 0) == (Some(Arr([Str("Hello")])), 0);
    assert PlaceMember(title, items, 0) == (Some(Str("Bonjour")), 1);
    PlaceAmongCons(title, [], items, 0);
    PlaceAmongCons(tags, [title], items, 0);
  }
}
