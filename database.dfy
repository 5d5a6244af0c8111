/**
 * The in-memory part of the JSON record store each backend service uses: an
 * ordered list of records with queries and in-place create, update and
 * delete. The generated id and the timestamps are parameters; every rewrite
 * of the backing file is counted in the ghost field `writes`.
 */
module Database {
  import opened Wrappers
  import opened Seqs

  /** A JSON value (numbers restricted to integers). */
  datatype Value =
    | Null
    | Bool(b: bool)
    | Number(n: int)
    | Str(s: string)
    | Array(items: seq<Value>)
    | Object(fields: map<string, Value>)

  type Record = map<string, Value>

  /** The record's `id` field is the string `id`. */
  function IdIs(id: string): Record -> bool
  {
    (r: Record) => "id" in r && r["id"] == Str(id)
  }

  /**
   * The record `create` stores: a generated id, then the item's own fields
   * (which win over the generated id), then the creation time.
   */
  function Created(item: Record, uuid: string, timestamp: string): (r: Record)
    ensures r.Keys == item.Keys + {"id", "createdAt"}
    ensures r["createdAt"] == Str(timestamp)
    ensures r["id"] == if "id" in item then item["id"] else Str(uuid)
    ensures forall k :: k in item && k != "createdAt" ==> r[k] == item[k]
  {
    (map["id" := Str(uuid)] + item)["createdAt" := Str(timestamp)]
  }

  /** The record `update` stores: the old fields, overwritten by the updates, then the update time. */
  function Updated(current: Record, updates: Record, timestamp: string): (r: Record)
    ensures r.Keys == current.Keys + updates.Keys + {"updatedAt"}
    ensures r["updatedAt"] == Str(timestamp)
    ensures forall k :: k in updates && k != "updatedAt" ==> r[k] == updates[k]
    ensures forall k :: k in current && k !in updates && k != "updatedAt" ==> r[k] == current[k]
  {
    (current + updates)["updatedAt" := Str(timestamp)]
  }

  /** No two records carry the same id. */
  ghost predicate UniqueIds(data: seq<Record>)
  {
    forall i, j :: 0 <= i < j < |data| && "id" in data[i] && "id" in data[j] ==> data[i]["id"] != data[j]["id"]
  }

  class JsonDatabase {
    var data: seq<Record>
    ghost var writes: nat

    /**
     * Start-up: the stored records when the file exists, otherwise an empty
     * list that is written out at once.
     */
    constructor (stored: Option<seq<Record>>)
      ensures data == (if stored.Some? then stored.value else [])
      ensures writes == (if stored.Some? then 0 else 1)
    {
      if stored.Some? {
        data := stored.value;
        writes := 0;
      } else {
        data := [];
        writes := 1;
      }
    }

    /** The records satisfying `p`, in stored order and with their multiplicity. */
    function Find(p: Record -> bool): (r: seq<Record>)
      reads this
      ensures Subsequence(r, data)
      ensures forall x :: x in r <==> x in data && p(x)
      ensures forall x :: multiset(r)[x] == if p(x) then multiset(data)[x] else 0
    {
      FilterIsSubsequence(data, p);
      FilterMembers(data, p);
      FilterCounts(data, p);
      Filter(data, p)
    }

    /** The first record satisfying `p`, or none. */
    function FindOne(p: Record -> bool): (r: Option<Record>)
      reads this
      ensures r.Some? ==> exists i :: 0 <= i < |data| && data[i] == r.value && p(data[i])
                                      && forall j :: 0 <= j < i ==> !p(data[j])
      ensures r.None? <==> forall x :: x in data ==> !p(x)
    {
      match FirstIndex(data, p)
      case None => None
      case Some(i) => Some(data[i])
    }

    /** The first record with this id, or none. */
    function FindById(id: string): (r: Option<Record>)
      reads this
      ensures r.Some? ==> exists i :: 0 <= i < |data| && data[i] == r.value && IdIs(id)(data[i])
                                      && forall j :: 0 <= j < i ==> !IdIs(id)(data[j])
      ensures r.None? <==> forall x :: x in data ==> !IdIs(id)(x)
    {
      FindOne(IdIs(id))
    }

    /** Appends the new record and returns it. */
    method Create(item: Record, uuid: string, timestamp: string) returns (r: Record)
      modifies this
      ensures r == Created(item, uuid, timestamp)
      ensures data == old(data) + [r]
      ensures writes == old(writes) + 1
    {
      r := Created(item, uuid, timestamp);
      data := data + [r];
      writes := writes + 1;
    }

    /** Merges `updates` into the first record with this id; none when there is no such record. */
    method Update(id: string, updates: Record, timestamp: string) returns (r: Option<Record>)
      modifies this
      ensures match FirstIndex(old(data), IdIs(id))
              case None => r == None && data == old(data) && writes == old(writes)
              case Some(i) =>
                r == Some(Updated(old(data)[i], updates, timestamp))
                && data == old(data)[i := r.value] && writes == old(writes) + 1
    {
      var index := FirstIndex(data, IdIs(id));
      if index.None? {
        return None;
      }
      var i := index.value;
      data := data[i := Updated(data[i], updates, timestamp)];
      writes := writes + 1;
      r := Some(data[i]);
    }

    /** Removes the first record with this id; false when there is no such record. */
    method Delete(id: string) returns (deleted: bool)
      modifies this
      ensures match FirstIndex(old(data), IdIs(id))
              case None => !deleted && data == old(data) && writes == old(writes)
              case Some(i) => deleted && data == old(data)[..i] + old(data)[i + 1..] && writes == old(writes) + 1
    {
      var index := FirstIndex(data, IdIs(id));
      if index.None? {
        return false;
      }
      var i := index.value;
      data := data[..i] + data[i + 1..];
      writes := writes + 1;
      return true;
    }
  }

  /**
   * Create then look up: when no stored record has the generated id and the
   * item brings no id of its own, the new record is found by that id, at the end.
   */
  lemma CreateThenFind(data: seq<Record>, item: Record, uuid: string, timestamp: string)
    requires forall x :: x in data ==> !IdIs(uuid)(x)
    requires "id" !in item
    ensures FirstIndex(data + [Created(item, uuid, timestamp)], IdIs(uuid)) == Some(|data|)
  {
    assert forall j :: 0 <= j < |data| ==> data[j] in data;
    FirstIndexSnoc(data, Created(item, uuid, timestamp), IdIs(uuid));
  }

  /**
   * Update then look up: an update that leaves the id alone is found again at
   * the same index, and every other record is as it was.
   */
  lemma UpdateThenFind(data: seq<Record>, id: string, updates: Record, timestamp: string)
    requires FirstIndex(data, IdIs(id)).Some?
    requires "id" !in updates
    ensures var i := FirstIndex(data, IdIs(id)).value;
            var after := data[i := Updated(data[i], updates, timestamp)];
            FirstIndex(after, IdIs(id)) == Some(i)
            && |after| == |data|
            && forall j :: 0 <= j < |data| && j != i ==> after[j] == data[j]
  {
    var i := FirstIndex(data, IdIs(id)).value;
    var after := data[i := Updated(data[i], updates, timestamp)];
    FirstIndexPrefixSame(data, after, i, IdIs(id));
  }

  /** Two sequences that agree before `i`, with a match at `i` in the second, have the same first match. */
  lemma {:induction false} FirstIndexPrefixSame(s: seq<Record>, t: seq<Record>, i: nat, p: Record -> bool)
    requires i < |s| == |t|
    requires forall j :: 0 <= j < i ==> s[j] == t[j] && !p(s[j])
    requires p(t[i])
    ensures FirstIndex(t, p) == Some(i)
    decreases i
  {
    if i > 0 {
      FirstIndexPrefixSame(s[1..], t[1..], i - 1, p);
    }
  }

  /**
   * Delete then look up: when ids are unique, the id is gone after the
   * delete, the ids stay unique, and the rest keep their order.
   */
  lemma DeleteThenFind(data: seq<Record>, id: string)
    requires UniqueIds(data)
    requires FirstIndex(data, IdIs(id)).Some?
    ensures var i := FirstIndex(data, IdIs(id)).value;
            var after := data[..i] + data[i + 1..];
            FirstIndex(after, IdIs(id)) == None
            && UniqueIds(after)
            && |after| == |data| - 1
            && multiset(after) == multiset(data) - multiset{data[i]}
  {
    var i := FirstIndex(data, IdIs(id)).value;
    var after := data[..i] + data[i + 1..];
    forall j | 0 <= j < |after| ensures !IdIs(id)(after[j]) {
      if j < i {
        assert after[j] == data[j];
      } else {
        assert after[j] == data[j + 1];
      }
    }
    forall a, b | 0 <= a < b < |after| && "id" in after[a] && "id" in after[b]
      ensures after[a]["id"] != after[b]["id"]
    {
      var a' := if a < i then a else a + 1;
      var b' := if b < i then b else b + 1;
      assert after[a] == data[a'] && after[b] == data[b'];
    }
    assert data == data[..i] + [data[i]] + data[i + 1..];
  }
}
