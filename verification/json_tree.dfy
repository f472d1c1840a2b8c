/** The JSON value model (RFC 8259 section 3) as the source sees it after `JSON.parse`:
    object members keep their stored order, numbers are integers. */
module JsonTree {

  datatype Json =
    | Null
    | Bool(b: bool)
    | Num(n: int)
    | Str(s: string)
    | Arr(elems: seq<Json>)
    | Obj(members: seq<(string, Json)>)
  {
    /** `value instanceof Object` in the source: arrays and objects. */
    predicate IsContainer() {
      Arr? || Obj?
    }
  }

  /** JavaScript truthiness (`!!value`): `null`, `false`, `0` and `''` are falsy,
      every array and object is truthy. */
  predicate Truthy(v: Json) {
    match v
    case Null => false
    case Bool(b) => b
    case Num(n) => n != 0
    case Str(s) => s != ""
    case Arr(_) => true
    case Obj(_) => true
  }

  /** The number of UTF-16 code units of a character: two for a character outside the
      Basic Multilingual Plane, which JavaScript stores as a surrogate pair. */
  function UnitsOf(c: char): (n: nat)
    ensures n == 1 || n == 2
  {
    if c as int >= 0x10000 then 2 else 1
  }

  /** `s.length` of a JavaScript string: its number of UTF-16 code units. */
  function Utf16Length(s: string): (n: nat)
    ensures |s| <= n <= 2 * |s|
    decreases |s|
  {
    if s == [] then 0 else UnitsOf(s[0]) + Utf16Length(s[1..])
  }

  lemma {:induction false} Utf16LengthAppend(a: string, b: string)
    ensures Utf16Length(a + b) == Utf16Length(a) + Utf16Length(b)
    decreases |a|
  {
    if a == [] {
      assert a + b == b;
    } else {
      assert (a + b)[0] == a[0];
      assert (a + b)[1..] == a[1..] + b;
      Utf16LengthAppend(a[1..], b);
    }
  }

  /** Text within the Basic Multilingual Plane has one code unit per character. */
  lemma {:induction false} Utf16LengthOfPlainText(s: string)
    requires forall i :: 0 <= i < |s| ==> s[i] as int < 0x10000
    ensures Utf16Length(s) == |s|
    decreases |s|
  {
    if s != [] {
      Utf16LengthOfPlainText(s[1..]);
    }
  }

  /** An emoji is one character but two code units. */
  lemma AstralCharacterIsTwoUnits()
    ensures |"\U{1F600}"| == 1 && Utf16Length("\U{1F600}") == 2
  {
  }

  /** A leaf the traversals collect: a non-container value that is truthy. */
  predicate IsTruthyLeaf(v: Json) {
    !v.IsContainer() && Truthy(v)
  }

  /** True when no object anywhere in `v` has a member whose key is the empty string. */
  predicate NoEmptyKeys(v: Json)
    decreases v
  {
    match v
    case Arr(elems) => NoEmptyKeysIn(elems)
    case Obj(members) => NoEmptyKeysAmong(members)
    case _ => true
  }

  predicate NoEmptyKeysIn(elems: seq<Json>)
    decreases elems
  {
    elems == [] || (NoEmptyKeys(elems[0]) && NoEmptyKeysIn(elems[1..]))
  }

  predicate NoEmptyKeysAmong(members: seq<(string, Json)>)
    decreases members
  {
    members == [] || (NoEmptyKeyMember(members[0]) && NoEmptyKeysAmong(members[1..]))
  }

  predicate NoEmptyKeyMember(m: (string, Json))
    decreases m
  {
    m.0 != "" && NoEmptyKeys(m.1)
  }
}
