/**
 * Parsed JSON values and the reviver of `safeJSONParse`
 * (`src/lib/security.ts`), which `JSON.parse` applies bottom-up to every
 * property (ECMA-262, section 25.5.1, InternalizeJSONProperty) and which
 * drops every member named `__proto__` or `constructor`.
 */
module JsonTree {
  import opened Wrappers
  import opened JsText

  /**
   * A value `JSON.parse` can produce. An object is its members in order; a
   * property read sees the last member with that key, as later duplicates
   * overwrite earlier ones.
   */
  datatype Json =
    | JNull
    | JBool(b: bool)
    | JNumber(n: real)
    | JString(s: JsString)
    | JArray(items: seq<Json>)
    | JObject(members: seq<Member>)

  datatype Member = Member(key: JsString, value: Json)

  /** The key `__proto__`. */
  const PROTO: JsString := [0x5F, 0x5F, 0x70, 0x72, 0x6F, 0x74, 0x6F, 0x5F, 0x5F]
  /** The key `constructor`. */
  const CONSTRUCTOR: JsString := [0x63, 0x6F, 0x6E, 0x73, 0x74, 0x72, 0x75, 0x63, 0x74, 0x6F, 0x72]

  /** The keys the reviver answers with `undefined`, compared exactly. */
  predicate Forbidden(key: JsString)
  {
    key == PROTO || key == CONSTRUCTOR
  }

  /** Whether JavaScript treats the value as true in a condition. */
  predicate Truthy(v: Json)
  {
    match v
    case JNull => false
    case JBool(b) => b
    case JNumber(n) => n != 0.0
    case JString(s) => s != []
    case _ => true
  }

  /** A read of an own property from an object's members: the value of the last member with that key. */
  function Get(ms: seq<Member>, key: JsString): (r: Option<Json>)
    ensures r.Some? <==> exists i :: 0 <= i < |ms| && ms[i].key == key
  {
    if ms == [] then None
    else
      match Get(ms[1..], key)
      case Some(v) => Some(v)
      case None => if ms[0].key == key then Some(ms[0].value) else None
  }

  /**
   * The reviver's walk over a value: children first, then the value itself is
   * kept. Values other than arrays and objects pass through unchanged, an
   * array keeps its length and an object stays an object.
   */
  function Revive(v: Json): (r: Json)
    ensures !v.JArray? && !v.JObject? ==> r == v
    ensures v.JArray? ==> r.JArray? && |r.items| == |v.items|
    ensures v.JObject? ==> r.JObject?
    decreases v
  {
    match v
    case JArray(items) => JArray(ReviveItems(items))
    case JObject(ms) => JObject(ReviveMembers(ms))
    case _ => v
  }

  /** Array elements are revived in place; their keys are indices, never forbidden. */
  function ReviveItems(items: seq<Json>): (r: seq<Json>)
    ensures |r| == |items|
    ensures forall k :: 0 <= k < |r| ==> r[k] == Revive(items[k])
    decreases items
  {
    if items == [] then [] else [Revive(items[0])] + ReviveItems(items[1..])
  }

  function ReviveMember(m: Member): (r: Member)
    decreases m
  {
    Member(m.key, Revive(m.value))
  }

  /**
   * Members with a forbidden key are deleted; the others keep their place with
   * revived values. No member left has a forbidden key.
   */
  function ReviveMembers(ms: seq<Member>): (r: seq<Member>)
    ensures |r| <= |ms|
    ensures forall k :: 0 <= k < |r| ==> !Forbidden(r[k].key)
    decreases ms
  {
    if ms == [] then []
    else (if Forbidden(ms[0].key) then [] else [ReviveMember(ms[0])]) + ReviveMembers(ms[1..])
  }

  /** No object at any depth has a member with a forbidden key. */
  predicate Clean(v: Json)
    decreases v
  {
    match v
    case JArray(items) => ItemsClean(items)
    case JObject(ms) => MembersClean(ms)
    case _ => true
  }

  predicate ItemsClean(items: seq<Json>)
    decreases items
  {
    items == [] || (Clean(items[0]) && ItemsClean(items[1..]))
  }

  predicate MemberClean(m: Member)
    decreases m
  {
    !Forbidden(m.key) && Clean(m.value)
  }

  predicate MembersClean(ms: seq<Member>)
    decreases ms
  {
    ms == [] || (MemberClean(ms[0]) && MembersClean(ms[1..]))
  }

  /**
   * `safeJSONParse`: a text `JSON.parse` rejects (`None`) gives the default
   * value itself; otherwise the revived tree, which is clean.
   */
  function SafeJsonParse(parsed: Option<Json>, defaultValue: Json): (r: Json)
    ensures parsed.None? ==> r == defaultValue
    ensures parsed.Some? ==> r == Revive(parsed.value) && Clean(r)
  {
    match parsed
    case None => defaultValue
    case Some(v) =>
      ReviveIsClean(v);
      Revive(v)
  }

  /** The revived tree has no forbidden key at any depth. */
  lemma {:induction false} ReviveIsClean(v: Json)
    ensures Clean(Revive(v))
    decreases v
  {
    match v
    case JArray(items) => ReviveItemsClean(items);
    case JObject(ms) => ReviveMembersClean(ms);
    case _ =>
  }

  lemma {:induction false} ReviveItemsClean(items: seq<Json>)
    ensures ItemsClean(ReviveItems(items))
    decreases items
  {
    if items != [] {
      ReviveIsClean(items[0]);
      ReviveItemsClean(items[1..]);
      var r := ReviveItems(items);
      assert r[0] == Revive(items[0]) && r[1..] == ReviveItems(items[1..]);
    }
  }

  lemma {:induction false} ReviveMembersClean(ms: seq<Member>)
    ensures MembersClean(ReviveMembers(ms))
    decreases ms
  {
    if ms != [] {
      ReviveMemberClean(ms[0]);
      ReviveMembersClean(ms[1..]);
      var head := if Forbidden(ms[0].key) then [] else [ReviveMember(ms[0])];
      var r := ReviveMembers(ms);
      if head != [] {
        assert r[0] == ReviveMember(ms[0]) && r[1..] == ReviveMembers(ms[1..]);
      } else {
        assert r == ReviveMembers(ms[1..]);
      }
    }
  }

  lemma {:induction false} ReviveMemberClean(m: Member)
    ensures Clean(ReviveMember(m).value)
    decreases m
  {
    ReviveIsClean(m.value);
  }

  /** On a clean tree the reviver changes nothing. */
  lemma {:induction false} ReviveKeepsClean(v: Json)
    requires Clean(v)
    ensures Revive(v) == v
    decreases v
  {
    match v
    case JArray(items) => ReviveKeepsCleanItems(items);
    case JObject(ms) => ReviveKeepsCleanMembers(ms);
    case _ =>
  }

  lemma {:induction false} ReviveKeepsCleanItems(items: seq<Json>)
    requires ItemsClean(items)
    ensures ReviveItems(items) == items
    decreases items
  {
    if items != [] {
      ReviveKeepsClean(items[0]);
      ReviveKeepsCleanItems(items[1..]);
      assert [items[0]] + items[1..] == items;
    }
  }

  lemma {:induction false} ReviveKeepsCleanMembers(ms: seq<Member>)
    requires MembersClean(ms)
    ensures ReviveMembers(ms) == ms
    decreases ms
  {
    if ms != [] {
      ReviveKeepsCleanMember(ms[0]);
      ReviveKeepsCleanMembers(ms[1..]);
      assert [ms[0]] + ms[1..] == ms;
    }
  }

  lemma {:induction false} ReviveKeepsCleanMember(m: Member)
    requires MemberClean(m)
    ensures ReviveMember(m) == m
    decreases m
  {
    ReviveKeepsClean(m.value);
  }

  /** Reviving twice is reviving once. */
  lemma ReviveIdempotent(v: Json)
    ensures Revive(Revive(v)) == Revive(v)
  {
    ReviveIsClean(v);
    ReviveKeepsClean(Revive(v));
  }

  /**
   * Reading an own property of a revived object: no own member has a
   * forbidden key, and any other key gives the revived value of the original
   * read.
   */
  lemma {:induction false} ReviveKeepsOtherMembers(ms: seq<Member>, key: JsString)
    ensures Forbidden(key) ==> Get(ReviveMembers(ms), key).None?
    ensures !Forbidden(key) ==>
      Get(ReviveMembers(ms), key) == (if Get(ms, key).Some? then Some(Revive(Get(ms, key).value)) else None)
  {
    if ms != [] {
      ReviveKeepsOtherMembers(ms[1..], key);
      var head := if Forbidden(ms[0].key) then [] else [ReviveMember(ms[0])];
      var r := ReviveMembers(ms);
      if head == [] {
        assert r == ReviveMembers(ms[1..]);
      } else {
        assert r[0] == ReviveMember(ms[0]) && r[1..] == ReviveMembers(ms[1..]);
      }
    }
  }
}
