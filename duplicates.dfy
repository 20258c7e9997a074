/** The duplicate resolver behind /api/duplicates.

    GET reads the catalogue rows, groups them under the joined key
    `name|category_name|subcategory_name` in a Map (keys in first-occurrence
    order, members in read order), keeps the keys with more than one member
    and reports each as a group whose first member is kept and whose other
    members are to be deleted. DELETE flattens the `deleteIds` of the groups
    it is sent and removes those rows in one bulk delete. */
module Duplicates {
  import opened Common
  import opened Tally

  type Id = string

  /** A row of the catalogue as the scan selects it. */
  datatype Variety = Variety(id: Id, name: string, categoryName: string, subcategoryName: string)

  const Separator: char := '|'

  /** The grouping key: a joined string, not a tuple. */
  function Key(v: Variety): (k: string)
    ensures Count(k, Separator) ==
            Count(v.name, Separator) + Count(v.categoryName, Separator) + Count(v.subcategoryName, Separator) + 2
  {
    CountConcat(v.name + [Separator] + v.categoryName + [Separator], v.subcategoryName, Separator);
    CountConcat(v.name + [Separator] + v.categoryName, [Separator], Separator);
    CountConcat(v.name + [Separator], v.categoryName, Separator);
    CountConcat(v.name, [Separator], Separator);
    v.name + [Separator] + v.categoryName + [Separator] + v.subcategoryName
  }

  function Keys(rows: seq<Variety>): seq<string> {
    seq(|rows|, i requires 0 <= i < |rows| => Key(rows[i]))
  }

  /** The rows whose key is k, in read order. */
  function Members(rows: seq<Variety>, k: string): (ms: seq<Variety>)
    ensures |ms| <= |rows|
  {
    if |rows| == 0 then []
    else Members(rows[..|rows| - 1], k) + (if Key(rows[|rows| - 1]) == k then [rows[|rows| - 1]] else [])
  }

  /** A group has as many rows as its key has occurrences. */
  lemma {:induction false} MembersCount(rows: seq<Variety>, k: string)
    ensures |Members(rows, k)| == Count(Keys(rows), k)
  {
    if |rows| > 0 {
      var init, last := rows[..|rows| - 1], rows[|rows| - 1];
      assert Keys(rows)[..|rows| - 1] == Keys(init);
      MembersCount(init, k);
    }
  }

  /** A key has rows exactly when it occurs. */
  lemma MembersEmpty(rows: seq<Variety>, k: string)
    ensures Members(rows, k) == [] <==> k !in Keys(rows)
  {
    MembersCount(rows, k);
    CountZero(Keys(rows), k);
  }

  /** A group holds exactly the rows with its key: every member is a row
      with that key, and every row with that key is a member. */
  lemma {:induction false} MembersExactly(rows: seq<Variety>, k: string)
    ensures forall m :: m in Members(rows, k) <==> m in rows && Key(m) == k
  {
    if |rows| > 0 {
      var init, last := rows[..|rows| - 1], rows[|rows| - 1];
      assert rows == init + [last];
      MembersExactly(init, k);
    }
  }

  /** One entry of the Map: a key and the rows pushed under it. */
  datatype Entry = Entry(key: string, members: seq<Variety>)

  function EntriesFor(ks: seq<string>, rows: seq<Variety>): (es: seq<Entry>)
    ensures |es| == |ks|
    ensures forall i :: 0 <= i < |ks| ==> es[i] == Entry(ks[i], Members(rows, ks[i]))
  {
    if |ks| == 0 then [] else [Entry(ks[0], Members(rows, ks[0]))] + EntriesFor(ks[1..], rows)
  }

  /** The Map's entries in insertion order: one per distinct key, in order of
      first occurrence, each holding every row with that key. */
  function Grouping(rows: seq<Variety>): (es: seq<Entry>)
    ensures |es| == |Distinct(Keys(rows))|
    ensures forall i :: 0 <= i < |es| ==> es[i].key == Distinct(Keys(rows))[i] && es[i].members == Members(rows, es[i].key)
  {
    EntriesFor(Distinct(Keys(rows)), rows)
  }

  /** The Map after the rows `seen` have been pushed: its keys in insertion
      order and the rows under each key. */
  ghost predicate Filled(seen: seq<Variety>, order: seq<string>, groups: map<string, seq<Variety>>) {
    && order == Distinct(Keys(seen))
    && (forall k :: k in groups <==> k in order)
    && (forall k :: k in groups ==> groups[k] == Members(seen, k))
  }

  /** Pushing one more row under its key keeps the Map filled. */
  lemma FilledSnoc(seen: seq<Variety>, x: Variety, order: seq<string>, groups: map<string, seq<Variety>>)
    requires Filled(seen, order, groups)
    ensures var key := Key(x);
            Filled(seen + [x],
                   if key in groups then order else order + [key],
                   groups[key := (if key in groups then groups[key] else []) + [x]])
  {
    var key := Key(x);
    var order' := if key in groups then order else order + [key];
    var groups' := groups[key := (if key in groups then groups[key] else []) + [x]];
    FilledSnocOrder(seen, x, order, groups);
    FilledSnocGroups(seen, x, order, groups);
    assert forall k :: k in groups' <==> k in order' by {
      assert forall k :: k in groups' <==> k in groups || k == key;
      assert forall k :: k in order' <==> k in order || k == key;
    }
  }

  lemma FilledSnocOrder(seen: seq<Variety>, x: Variety, order: seq<string>, groups: map<string, seq<Variety>>)
    requires Filled(seen, order, groups)
    ensures (if Key(x) in groups then order else order + [Key(x)]) == Distinct(Keys(seen + [x]))
  {
    KeysSnoc(seen, x);
    DistinctSnoc(Keys(seen), Key(x));
  }

  lemma FilledSnocGroups(seen: seq<Variety>, x: Variety, order: seq<string>, groups: map<string, seq<Variety>>)
    requires Filled(seen, order, groups)
    ensures var key := Key(x);
            var groups' := groups[key := (if key in groups then groups[key] else []) + [x]];
            forall k :: k in groups' ==> groups'[k] == Members(seen + [x], k)
  {
    var key := Key(x);
    var groups' := groups[key := (if key in groups then groups[key] else []) + [x]];
    forall k | k in groups' ensures groups'[k] == Members(seen + [x], k) {
      MembersSnoc(seen, x);
      if k == key && key !in groups {
        MembersEmpty(seen, key);
      }
    }
  }

  lemma FilledNext(data: seq<Variety>, i: nat, order: seq<string>, groups: map<string, seq<Variety>>)
    requires i < |data| && Filled(data[..i], order, groups)
    ensures var key := Key(data[i]);
            Filled(data[..i + 1],
                   if key in groups then order else order + [key],
                   groups[key := (if key in groups then groups[key] else []) + [data[i]]])
  {
    assert data[..i + 1] == data[..i] + [data[i]];
    FilledSnoc(data[..i], data[i], order, groups);
  }

  lemma FilledEntries(rows: seq<Variety>, order: seq<string>, groups: map<string, seq<Variety>>)
    requires Filled(rows, order, groups)
    ensures seq(|order|, j requires 0 <= j < |order| => Entry(order[j], groups[order[j]])) == Grouping(rows)
  {
  }

  /** The forEach loop that fills the Map (route.ts:27-35), followed by
      `Array.from(groups.entries())`. */
  method GroupByKey(data: seq<Variety>) returns (entries: seq<Entry>)
    ensures entries == Grouping(data)
  {
    var order: seq<string> := [];
    var groups: map<string, seq<Variety>> := map[];
    for i := 0 to |data|
      invariant Filled(data[..i], order, groups)
    {
      FilledNext(data, i, order, groups);
      var key := Key(data[i]);
      if key in groups {
        groups := groups[key := groups[key] + [data[i]]];
      } else {
        // set(key, []) followed by the push
        order := order + [key];
        groups := groups[key := [] + [data[i]]];
      }
    }
    assert data[..|data|] == data;
    FilledEntries(data, order, groups);
    entries := seq(|order|, j requires 0 <= j < |order| => Entry(order[j], groups[order[j]]));
  }

  lemma KeysSnoc(rows: seq<Variety>, x: Variety)
    ensures Keys(rows + [x]) == Keys(rows) + [Key(x)]
  {
  }

  lemma MembersSnoc(rows: seq<Variety>, x: Variety)
    ensures forall k :: Members(rows + [x], k) == Members(rows, k) + (if Key(x) == k then [x] else [])
  {
    assert (rows + [x])[..|rows|] == rows;
  }

  /** JavaScript's `String.prototype.split` with a one-character separator. */
  function Split(s: string, sep: char): (parts: seq<string>)
    ensures |parts| > 0
  {
    if |s| == 0 then [""]
    else
      var init, c := Split(s[..|s| - 1], sep), s[|s| - 1];
      if c == sep then init + [""]
      else init[..|init| - 1] + [init[|init| - 1] + [c]]
  }

  /** The inverse of Split: the parts joined with the separator. */
  function Join(parts: seq<string>, sep: char): string
    requires |parts| > 0
  {
    if |parts| == 1 then parts[0]
    else Join(parts[..|parts| - 1], sep) + [sep] + parts[|parts| - 1]
  }

  /** The field `i` of an array destructuring; a missing one reads as "". */
  function FieldAt(parts: seq<string>, i: nat): string {
    if i < |parts| then parts[i] else ""
  }

  datatype DuplicateGroup = DuplicateGroup(
    name: string, categoryName: string, subcategoryName: string,
    count: nat, ids: seq<Id>, keepId: Id, deleteIds: seq<Id>)

  function Ids(vs: seq<Variety>): seq<Id> {
    seq(|vs|, i requires 0 <= i < |vs| => vs[i].id)
  }

  /** The `map` step of the plan (route.ts:39-49): the three names come back
      from splitting the key. */
  function ToGroup(e: Entry): (g: DuplicateGroup)
    requires |e.members| > 0
    ensures g.count == |g.ids| == |g.deleteIds| + 1 == |e.members|
    ensures forall i :: 0 <= i < |g.ids| ==> g.ids[i] == e.members[i].id
    ensures g.keepId == g.ids[0] && g.deleteIds == g.ids[1..]
  {
    var parts := Split(e.key, Separator);
    DuplicateGroup(FieldAt(parts, 0), FieldAt(parts, 1), FieldAt(parts, 2),
                   |e.members|, Ids(e.members), e.members[0].id, Ids(e.members[1..]))
  }

  /** The `filter` step of the plan: entries with more than one member. */
  function Kept(es: seq<Entry>): (ks: seq<Entry>)
    ensures forall i :: 0 <= i < |ks| ==> |ks[i].members| > 1
  {
    if |es| == 0 then []
    else (if |es[0].members| > 1 then [es[0]] else []) + Kept(es[1..])
  }

  /** The consolidation plan built from the Map's entries. */
  function Plan(es: seq<Entry>): (gs: seq<DuplicateGroup>)
    ensures |gs| == |Kept(es)|
    ensures forall i :: 0 <= i < |gs| ==> gs[i].count == |Kept(es)[i].members| >= 2
  {
    var ks := Kept(es);
    seq(|ks|, i requires 0 <= i < |ks| => ToGroup(ks[i]))
  }

  /** GET /api/duplicates. A missing environment, a failed read, or a read
      that returns no data array (forEach on null throws) all end in the
      catch-all 500. */
  method FindDuplicates(env: RouteEnv, read: Fetched<Variety>) returns (resp: Response<seq<DuplicateGroup>>)
    ensures !(AdminEnvPresent(env) && read.Fetched? && read.data.Some?) ==>
              resp == Failure(500, "Failed to find duplicates")
    ensures AdminEnvPresent(env) && read.Fetched? && read.data.Some? ==>
              resp == Success(200, Plan(Grouping(read.data.value)))
  {
    if !AdminEnvPresent(env) || read.FetchFailed? || read.data.None? {
      return Failure(500, "Failed to find duplicates");
    }
    var entries := GroupByKey(read.data.value);
    resp := Success(200, Plan(entries));
  }

  /** The `flatMap` over the submitted groups (route.ts:75). */
  function FlatDeleteIds(groups: seq<DuplicateGroup>): (ids: seq<Id>)
    ensures ids == [] <==> forall i :: 0 <= i < |groups| ==> groups[i].deleteIds == []
  {
    if |groups| == 0 then [] else groups[0].deleteIds + FlatDeleteIds(groups[1..])
  }

  /** The rows that survive `.delete().in('id', ids)`, in their order. */
  function RemoveIds(rows: seq<Variety>, ids: seq<Id>): (kept: seq<Variety>)
    ensures |kept| <= |rows|
  {
    if |rows| == 0 then []
    else RemoveIds(rows[..|rows| - 1], ids) + (if rows[|rows| - 1].id in ids then [] else [rows[|rows| - 1]])
  }

  /** The `varieties` table the DELETE handler writes to; `calls` counts the
      round trips made to it. */
  class VarietyTable {
    var rows: seq<Variety>
    var calls: nat

    constructor (rows: seq<Variety>)
      ensures this.rows == rows && calls == 0
    {
      this.rows := rows;
      calls := 0;
    }

    /** One bulk delete `.delete().in('id', ids)`; on a fault nothing is
        removed. */
    method DeleteIn(ids: seq<Id>, fault: Fault) returns (error: Fault)
      modifies this
      ensures calls == old(calls) + 1
      ensures error == fault
      ensures rows == if fault.None? then RemoveIds(old(rows), ids) else old(rows)
    {
      calls := calls + 1;
      if fault.None? {
        rows := RemoveIds(rows, ids);
      }
      error := fault;
    }
  }

  /** The `duplicates` member of the DELETE body. */
  datatype GroupsField = Absent | NotAnArray | Groups(groups: seq<DuplicateGroup>)

  /** DELETE /api/duplicates. `body` is None when the request is not JSON;
      `fault` is the outcome the bulk delete would have. */
  method RemoveDuplicates(table: VarietyTable, env: RouteEnv, body: Option<GroupsField>, fault: Fault)
    returns (resp: Response<nat>)
    modifies table
    ensures !AdminEnvPresent(env) || body.None? ==>
              resp == Failure(500, "Failed to remove duplicates") && unchanged(table)
    ensures AdminEnvPresent(env) && body.Some? && !body.value.Groups? ==>
              resp == Failure(400, "Invalid duplicates data") && unchanged(table)
    ensures AdminEnvPresent(env) && body.Some? && body.value.Groups? ==>
              var ids := FlatDeleteIds(body.value.groups);
              if ids == [] then
                resp == Success(200, 0) && unchanged(table)
              else if fault.Some? then
                resp == Failure(500, "Delete failed: " + fault.value) &&
                table.rows == old(table.rows) && table.calls == old(table.calls) + 1
              else
                resp == Success(200, |ids|) &&
                table.rows == RemoveIds(old(table.rows), ids) && table.calls == old(table.calls) + 1
  {
    if !AdminEnvPresent(env) || body.None? {
      return Failure(500, "Failed to remove duplicates");
    }
    if !body.value.Groups? {
      return Failure(400, "Invalid duplicates data");
    }
    var ids := FlatDeleteIds(body.value.groups);
    if |ids| == 0 {
      return Success(200, 0);
    }
    var error := table.DeleteIn(ids, fault);
    if error.Some? {
      return Failure(500, "Delete failed: " + error.value);
    }
    resp := Success(200, |ids|);
  }
}
