/** A database table seen as an in-memory sequence of rows searched by a
    string key: the first-match query and the insert-if-absent discipline that
    both data stores follow. */
module Tables {

  datatype Option<T> = None | Some(value: T)

  /** Some row of `table` has key `id`. */
  ghost predicate HasKey<T>(table: seq<T>, key: T -> string, id: string)
  {
    exists i :: 0 <= i < |table| && key(table[i]) == id
  }

  /** No two rows of `table` share a key. */
  ghost predicate UniqueKeys<T>(table: seq<T>, key: T -> string)
  {
    forall i, j :: 0 <= i < j < |table| ==> key(table[i]) != key(table[j])
  }

  /** The position of the first row whose key is `id`, if there is one. */
  function FirstIndex<T>(table: seq<T>, key: T -> string, id: string): (r: Option<nat>)
    ensures r.Some? ==> r.value < |table| && key(table[r.value]) == id
    ensures r.Some? ==> forall j :: 0 <= j < r.value ==> key(table[j]) != id
    ensures r.None? ==> forall j :: 0 <= j < |table| ==> key(table[j]) != id
  {
    if |table| == 0 then None
    else if key(table[0]) == id then Some(0)
    else match FirstIndex(table[1..], key, id)
      case None => None
      case Some(i) => Some(i + 1)
  }

  /** `FirstOrDefault(row => key(row) == id)`: the first matching row, or none. */
  function FirstOrDefault<T>(table: seq<T>, key: T -> string, id: string): (r: Option<T>)
    ensures r.Some? <==> HasKey(table, key, id)
    ensures r.Some? ==> r.value in table && key(r.value) == id
  {
    match FirstIndex(table, key, id)
    case None => None
    case Some(i) => Some(table[i])
  }

  /** Add `item` unless a row with its key is already present. */
  function SaveIfAbsent<T>(table: seq<T>, key: T -> string, item: T): (r: seq<T>)
    ensures !HasKey(table, key, key(item)) ==> r == table + [item]
    ensures HasKey(table, key, key(item)) ==> r == table
  {
    if FirstOrDefault(table, key, key(item)).None? then table + [item] else table
  }

  /** Only one position satisfies the contract of FirstIndex. */
  lemma FirstIndexIsFirst<T>(table: seq<T>, key: T -> string, id: string, i: nat)
    requires i < |table| && key(table[i]) == id
    requires forall j :: 0 <= j < i ==> key(table[j]) != id
    ensures FirstIndex(table, key, id) == Some(i)
  {
  }

  /** With unique keys, every row is what a lookup by its own key returns, so
      the order the first-match query scans the table in does not matter. */
  lemma UniqueKeyLookup<T>(table: seq<T>, key: T -> string, i: nat)
    requires UniqueKeys(table, key)
    requires i < |table|
    ensures FirstOrDefault(table, key, key(table[i])) == Some(table[i])
  {
  }

  /** Appending a row does not change what an existing key finds. */
  lemma FirstOrDefaultAppend<T>(table: seq<T>, key: T -> string, item: T, id: string)
    ensures FirstOrDefault(table + [item], key, id) ==
      if HasKey(table, key, id) then FirstOrDefault(table, key, id)
      else if key(item) == id then Some(item)
      else None
  {
    var t := table + [item];
    match FirstIndex(table, key, id)
    case Some(i) =>
      FirstIndexIsFirst(t, key, id, i);
    case None =>
      if key(item) == id {
        FirstIndexIsFirst(t, key, id, |table|);
      } else {
        assert forall j :: 0 <= j < |t| ==> key(t[j]) != id by {
          forall j | 0 <= j < |t| ensures key(t[j]) != id {
            if j < |table| { assert t[j] == table[j]; }
          }
        }
      }
  }

  /** After a save, the key is present; if it was absent, the lookup finds the
      saved row itself; if it was present, the lookup still finds the old row. */
  lemma LookupAfterSave<T>(table: seq<T>, key: T -> string, item: T)
    ensures FirstOrDefault(SaveIfAbsent(table, key, item), key, key(item)) ==
      if HasKey(table, key, key(item)) then FirstOrDefault(table, key, key(item))
      else Some(item)
  {
    if !HasKey(table, key, key(item)) {
      FirstOrDefaultAppend(table, key, item, key(item));
    }
  }

  /** Saving never changes what any other key finds, nor overwrites a row
      already present. */
  lemma SaveKeepsOtherLookups<T>(table: seq<T>, key: T -> string, item: T, id: string)
    requires HasKey(table, key, id)
    ensures FirstOrDefault(SaveIfAbsent(table, key, item), key, id) == FirstOrDefault(table, key, id)
  {
    if !HasKey(table, key, key(item)) {
      FirstOrDefaultAppend(table, key, item, id);
    }
  }

  /** A second save with the same key is a no-op. */
  lemma SaveIdempotent<T>(table: seq<T>, key: T -> string, item: T, again: T)
    requires key(again) == key(item)
    ensures SaveIfAbsent(SaveIfAbsent(table, key, item), key, again) == SaveIfAbsent(table, key, item)
  {
    var once := SaveIfAbsent(table, key, item);
    if !HasKey(table, key, key(item)) {
      assert key(once[|table|]) == key(again);
    }
  }

  /** Saving keeps the keys of the table unique. */
  lemma SavePreservesUniqueKeys<T>(table: seq<T>, key: T -> string, item: T)
    requires UniqueKeys(table, key)
    ensures UniqueKeys(SaveIfAbsent(table, key, item), key)
  {
  }
}
