/**
 * The in-memory stand-in for the browser's local storage, used when the
 * host provides none. Items live as plain properties of the storage object
 * itself; the model keeps them in a map and requires keys that cannot
 * collide with the object's own members or with inherited object members.
 */
module DummyStorage {
  import opened Wrappers

  datatype Storage = Storage(items: map<string, string>)

  /** The storage object's own members. */
  const MemberNames: set<string> := {"length", "key", "getItem", "setItem", "removeItem", "clear"}

  /** Members every plain object inherits. */
  const InheritedNames: set<string> := {
    "constructor", "hasOwnProperty", "isPrototypeOf", "propertyIsEnumerable",
    "toLocaleString", "toString", "valueOf", "__proto__",
    "__defineGetter__", "__defineSetter__", "__lookupGetter__", "__lookupSetter__"}

  /** A key that reads and writes an item rather than a member of the object. */
  predicate PlainKey(k: string) {
    k !in MemberNames && k !in InheritedNames
  }

  const Empty: Storage := Storage(map[])

  /** `getItem`: the stored item, undefined when there is none. */
  function GetItem(st: Storage, k: string): (r: Option<string>)
    requires PlainKey(k)
    ensures r.Some? <==> k in st.items
    ensures r.Some? ==> r.value == st.items[k]
  {
    if k in st.items then Some(st.items[k]) else None
  }

  /** `setItem`: store `v` under `k`. */
  function SetItem(st: Storage, k: string, v: string): (r: Storage)
    requires PlainKey(k)
    ensures GetItem(r, k) == Some(v)
    ensures forall k' :: PlainKey(k') && k' != k ==> GetItem(r, k') == GetItem(st, k')
    ensures r.items.Keys == st.items.Keys + {k}
  {
    Storage(st.items[k := v])
  }

  /** `removeItem`: delete the item under `k` and hand back what it held. */
  function RemoveItem(st: Storage, k: string): (r: (Storage, Option<string>))
    requires PlainKey(k)
    ensures r.1 == GetItem(st, k)
    ensures GetItem(r.0, k).None?
    ensures forall k' :: PlainKey(k') && k' != k ==> GetItem(r.0, k') == GetItem(st, k')
    ensures r.0.items.Keys == st.items.Keys - {k}
  {
    (Storage(st.items - {k}), GetItem(st, k))
  }

  /** `clear` is a no-op. */
  function Clear(st: Storage): Storage {
    st
  }

  /** `length` is a constant zero, whatever is stored. */
  function Length(st: Storage): nat {
    0
  }

  /** `key(i)` is undefined for every index. */
  function Key(st: Storage, i: int): Option<string> {
    None
  }

  /** One call that can change the storage. */
  datatype Op = Set(key: string, value: string) | Remove(key: string) | ClearAll

  predicate PlainOp(op: Op) {
    match op
    case Set(k, _) => PlainKey(k)
    case Remove(k) => PlainKey(k)
    case ClearAll => true
  }

  function Apply(st: Storage, op: Op): Storage
    requires PlainOp(op)
  {
    match op
    case Set(k, v) => SetItem(st, k, v)
    case Remove(k) => RemoveItem(st, k).0
    case ClearAll => Clear(st)
  }

  /** The storage after a history of calls, oldest first. */
  function Run(st: Storage, ops: seq<Op>): Storage
    requires forall i :: 0 <= i < |ops| ==> PlainOp(ops[i])
  {
    if |ops| == 0 then st
    else Apply(Run(st, ops[..|ops| - 1]), ops[|ops| - 1])
  }

  /** Reference reading of a history: the value of `k` is set by the latest
      call that names `k`; `clear` names no key. */
  function Latest(ops: seq<Op>, k: string): Option<string> {
    if |ops| == 0 then None
    else match ops[|ops| - 1]
      case Set(k', v) => if k' == k then Some(v) else Latest(ops[..|ops| - 1], k)
      case Remove(k') => if k' == k then None else Latest(ops[..|ops| - 1], k)
      case ClearAll => Latest(ops[..|ops| - 1], k)
  }

  /** The dummy storage behaves as last-write-wins: starting empty, reading a
      key after any history gives the value of the latest call naming it,
      and `clear` in the history makes no difference. */
  lemma {:induction false} LastWriteWins(ops: seq<Op>, k: string)
    requires forall i :: 0 <= i < |ops| ==> PlainOp(ops[i])
    requires PlainKey(k)
    ensures GetItem(Run(Empty, ops), k) == Latest(ops, k)
  {
    if |ops| > 0 {
      var pre := ops[..|ops| - 1];
      assert forall i :: 0 <= i < |pre| ==> pre[i] == ops[i];
      LastWriteWins(pre, k);
    }
  }

  /** The members that report on the storage never see its items, and
      clearing leaves it as it was. */
  lemma InertMembers(ops: seq<Op>, i: int)
    requires forall j :: 0 <= j < |ops| ==> PlainOp(ops[j])
    ensures var st := Run(Empty, ops);
      Length(st) == 0 && Key(st, i).None? && Clear(st) == st
  {
  }
}
