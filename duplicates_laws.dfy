/** What the duplicate scan and the bulk delete guarantee, stated over the
    functions of module Duplicates. */
module DuplicateLaws {
  import opened Common
  import opened Tally
  import opened Duplicates

  // ----- The joined key and its split -----

  lemma SplitSep(s: string, sep: char)
    ensures Split(s + [sep], sep) == Split(s, sep) + [""]
  {
    assert (s + [sep])[..|s|] == s;
  }

  /** Appending text without a separator extends the last part. */
  lemma {:induction false} SplitFree(s: string, t: string, sep: char)
    requires sep !in t
    ensures var ps := Split(s, sep);
            Split(s + t, sep) == ps[..|ps| - 1] + [ps[|ps| - 1] + t]
  {
    var ps := Split(s, sep);
    if |t| == 0 {
      assert s + t == s;
      assert ps[|ps| - 1] + t == ps[|ps| - 1];
      assert ps == ps[..|ps| - 1] + [ps[|ps| - 1]];
    } else {
      var t', c := t[..|t| - 1], t[|t| - 1];
      assert t == t' + [c];
      assert c != sep;
      SplitFree(s, t', sep);
      var u := s + t';
      assert (s + t)[..|s + t| - 1] == u;
      assert (s + t)[|s + t| - 1] == c;
      var qs := Split(u, sep);
      assert qs == ps[..|ps| - 1] + [ps[|ps| - 1] + t'];
      assert Split(s + t, sep) == qs[..|qs| - 1] + [qs[|qs| - 1] + [c]];
      assert qs[..|qs| - 1] == ps[..|ps| - 1];
      assert qs[|qs| - 1] + [c] == ps[|ps| - 1] + t;
    }
  }

  /** Splitting the joined parts gives the parts back, provided no part
      contains the separator. */
  lemma {:induction false} SplitJoin(parts: seq<string>, sep: char)
    requires |parts| > 0
    requires forall p :: p in parts ==> sep !in p
    ensures Split(Join(parts, sep), sep) == parts
  {
    var last := parts[|parts| - 1];
    if |parts| == 1 {
      SplitFree([], last, sep);
      assert [] + last == last;
    } else {
      var init := parts[..|parts| - 1];
      assert parts == init + [last];
      assert forall p :: p in init ==> p in parts;
      SplitJoin(init, sep);
      var j := Join(init, sep);
      SplitSep(j, sep);
      SplitFree(j + [sep], last, sep);
      var ps := Split(j + [sep], sep);
      assert ps == init + [""];
      assert ps[..|ps| - 1] == init;
      assert Join(parts, sep) == (j + [sep]) + last;
      assert ps[|ps| - 1] + last == last;
      assert Split(Join(parts, sep), sep) == init + [last];
    }
  }

  lemma KeyIsJoin(v: Variety)
    ensures Key(v) == Join([v.name, v.categoryName, v.subcategoryName], Separator)
  {
    var ps := [v.name, v.categoryName, v.subcategoryName];
    assert ps[..2] == [v.name, v.categoryName];
    assert ps[..2][..1] == [v.name];
    assert Join(ps[..2][..1], Separator) == v.name;
    assert Join(ps[..2], Separator) == v.name + [Separator] + v.categoryName;
  }

  predicate FreeOfSeparator(v: Variety) {
    Separator !in v.name && Separator !in v.categoryName && Separator !in v.subcategoryName
  }

  /** `key.split('|')` recovers the three names exactly when none of them
      contains '|'. */
  lemma KeyRoundTrip(v: Variety)
    requires FreeOfSeparator(v)
    ensures Split(Key(v), Separator) == [v.name, v.categoryName, v.subcategoryName]
  {
    KeyIsJoin(v);
    SplitJoin([v.name, v.categoryName, v.subcategoryName], Separator);
  }

  /** A string splits into one part more than it has separators. */
  lemma {:induction false} SplitLength(s: string, sep: char)
    ensures |Split(s, sep)| == Count(s, sep) + 1
  {
    if |s| > 0 {
      SplitLength(s[..|s| - 1], sep);
    }
  }

  /** The key always splits into at least three parts, so the destructuring
      of the plan never reads a missing part. */
  lemma KeyHasThreeParts(v: Variety)
    ensures |Split(Key(v), Separator)| >= 3
  {
    SplitLength(Key(v), Separator);
  }

  /** Without '|' in any name, equal keys mean equal names. */
  lemma KeyInjective(a: Variety, b: Variety)
    requires FreeOfSeparator(a) && FreeOfSeparator(b)
    ensures Key(a) == Key(b) <==>
            (a.name, a.categoryName, a.subcategoryName) == (b.name, b.categoryName, b.subcategoryName)
  {
    KeyRoundTrip(a);
    KeyRoundTrip(b);
  }

  /** With '|' inside a name, two different triples share one key, and the
      split of that key yields four parts: the group would report x, y and z
      as its names, a triple that neither row has. */
  lemma KeyCollision(x: string, y: string, z: string, w: string)
    requires Separator !in x && Separator !in y && Separator !in z && Separator !in w
    ensures var a := Variety("1", x + [Separator] + y, z, w);
            var b := Variety("2", x, y + [Separator] + z, w);
            && Key(a) == Key(b)
            && a.name != b.name
            && Split(Key(a), Separator) == [x, y, z, w]
  {
    var a := Variety("1", x + [Separator] + y, z, w);
    var ps := [x, y, z, w];
    assert ps[..1] == [x];
    assert ps[..2][..1] == ps[..1];
    assert ps[..3][..2] == ps[..2];
    assert ps[..|ps| - 1] == ps[..3];
    assert Join(ps[..1], Separator) == x;
    assert Join(ps[..2], Separator) == x + [Separator] + y;
    assert Join(ps[..3], Separator) == x + [Separator] + y + [Separator] + z;
    assert Join(ps, Separator) == x + [Separator] + y + [Separator] + z + [Separator] + w;
    assert Join(ps, Separator) == Key(a);
    SplitJoin(ps, Separator);
    assert Separator in a.name by { assert a.name[|x|] == Separator; }
  }

  // ----- The grouping -----

  /** The filter keeps exactly the entries with more than one row. */
  lemma {:induction false} KeptExactly(es: seq<Entry>)
    ensures forall e :: e in Kept(es) <==> e in es && |e.members| > 1
  {
    if |es| > 0 {
      KeptExactly(es[1..]);
      assert es == [es[0]] + es[1..];
    }
  }

  /** Each kept entry holds at least two rows, exactly the rows with its key. */
  lemma KeptEntry(rows: seq<Variety>, e: Entry)
    requires e in Kept(Grouping(rows))
    ensures |e.members| >= 2
    ensures e.members == Members(rows, e.key)
    ensures forall m :: m in e.members ==> m in rows && Key(m) == e.key
  {
    KeptExactly(Grouping(rows));
    var ks := Distinct(Keys(rows));
    var i :| 0 <= i < |ks| && Grouping(rows)[i] == e;
    MembersExactly(rows, e.key);
  }

  function EntryKeys(es: seq<Entry>): seq<string> {
    seq(|es|, i requires 0 <= i < |es| => es[i].key)
  }

  /** No entry kept from the tail shares the head's key. */
  lemma KeptKeysFromTail(es: seq<Entry>)
    requires |es| > 0 && NoDuplicates(EntryKeys(es))
    ensures es[0].key !in EntryKeys(Kept(es[1..]))
  {
    var ks := Kept(es[1..]);
    KeptExactly(es[1..]);
    forall i | 0 <= i < |ks| ensures EntryKeys(ks)[i] != es[0].key {
      assert ks[i] in ks;
      var p :| 0 <= p < |es| - 1 && es[1..][p] == ks[i];
      assert EntryKeys(es)[p + 1] == ks[i].key && EntryKeys(es)[0] == es[0].key;
    }
  }

  /** Filtering entries keeps distinct keys distinct. */
  lemma {:induction false} KeptKeepsKeysDistinct(es: seq<Entry>)
    requires NoDuplicates(EntryKeys(es))
    ensures NoDuplicates(EntryKeys(Kept(es)))
  {
    if |es| > 0 {
      KeptCons(es);
      var rest := Kept(es[1..]);
      assert EntryKeys(es[1..]) == EntryKeys(es)[1..];
      KeptKeepsKeysDistinct(es[1..]);
      if |es[0].members| > 1 {
        KeptKeysFromTail(es);
        assert EntryKeys([es[0]] + rest) == [es[0].key] + EntryKeys(rest);
        NoDuplicatesCons(es[0].key, EntryKeys(rest));
      } else {
        assert Kept(es) == rest;
      }
    }
  }

  /** The reported groups form a partition of the duplicated rows: each kept
      entry holds at least two rows, all with its key, and no two kept
      entries share a key. */
  lemma KeptGroupsArePartition(rows: seq<Variety>)
    ensures forall e :: e in Kept(Grouping(rows)) ==>
              && |e.members| >= 2
              && e.members == Members(rows, e.key)
              && (forall m :: m in e.members ==> Key(m) == e.key)
    ensures NoDuplicates(EntryKeys(Kept(Grouping(rows))))
  {
    forall e | e in Kept(Grouping(rows))
      ensures |e.members| >= 2 && e.members == Members(rows, e.key)
      ensures forall m :: m in e.members ==> Key(m) == e.key
    {
      KeptEntry(rows, e);
    }
    assert EntryKeys(Grouping(rows)) == Distinct(Keys(rows));
    KeptKeepsKeysDistinct(Grouping(rows));
  }

  lemma DuplicatedRowIsKept(rows: seq<Variety>, r: Variety)
    requires r in rows && Count(Keys(rows), Key(r)) > 1
    ensures exists i :: 0 <= i < |Kept(Grouping(rows))| && r in Kept(Grouping(rows))[i].members
  {
    var kept := Kept(Grouping(rows));
    var ks := Distinct(Keys(rows));
    var p :| 0 <= p < |rows| && rows[p] == r;
    assert Keys(rows)[p] == Key(r);
    assert Key(r) in Keys(rows);
    assert Key(r) in ks;
    var q :| 0 <= q < |ks| && ks[q] == Key(r);
    var e := Grouping(rows)[q];
    assert e in Grouping(rows);
    KeptExactly(Grouping(rows));
    MembersCount(rows, Key(r));
    assert e in kept;
    var idx :| 0 <= idx < |kept| && kept[idx] == e;
    MembersExactly(rows, Key(r));
    assert r in kept[idx].members;
  }

  /** Every row whose key occurs at least twice lands in exactly one reported
      group: the one whose key is its own. */
  lemma DuplicatedRowInExactlyOneGroup(rows: seq<Variety>, r: Variety)
    requires r in rows && Count(Keys(rows), Key(r)) > 1
    ensures var kept := Kept(Grouping(rows));
            && (exists i :: 0 <= i < |kept| && r in kept[i].members)
            && (forall i :: 0 <= i < |kept| ==> (r in kept[i].members <==> kept[i].key == Key(r)))
            && (forall i, j :: 0 <= i < |kept| && 0 <= j < |kept| && kept[i].key == Key(r) && kept[j].key == Key(r) ==> i == j)
  {
    var kept := Kept(Grouping(rows));
    DuplicatedRowIsKept(rows, r);
    forall i | 0 <= i < |kept| ensures r in kept[i].members <==> kept[i].key == Key(r) {
      KeptEntry(rows, kept[i]);
      MembersExactly(rows, kept[i].key);
    }
    KeptGroupsArePartition(rows);
    forall i, j | 0 <= i < |kept| && 0 <= j < |kept| && kept[i].key == Key(r) && kept[j].key == Key(r)
      ensures i == j
    {
      assert EntryKeys(kept)[i] == EntryKeys(kept)[j];
    }
  }

  // ----- The plan -----

  predicate DistinctIds(rows: seq<Variety>) {
    forall i, j :: 0 <= i < j < |rows| ==> rows[i].id != rows[j].id
  }

  lemma {:induction false} MembersHaveDistinctIds(rows: seq<Variety>, k: string)
    requires DistinctIds(rows)
    ensures DistinctIds(Members(rows, k))
  {
    if |rows| > 0 {
      var init, last := rows[..|rows| - 1], rows[|rows| - 1];
      assert rows == init + [last];
      assert DistinctIds(init);
      MembersHaveDistinctIds(init, k);
      MembersSnoc(init, last);
      var ms := Members(init, k);
      if Key(last) == k {
        MembersExactly(init, k);
        forall a | 0 <= a < |ms| ensures ms[a].id != last.id {
          var m := ms[a];
          assert m in ms;
          assert m in init;
          var p :| 0 <= p < |init| && init[p] == m;
          assert rows[p] == m;
        }
        assert Members(rows, k) == ms + [last];
      }
    }
  }

  lemma IdsTail(ms: seq<Variety>)
    requires |ms| > 0
    ensures Ids(ms[1..]) == Ids(ms)[1..]
  {
  }

  /** The shape of one reported group: `keepId` is the first id, `deleteIds`
      the others, `count` the number of ids; with distinct ids among its rows
      the kept id is not among those to delete. */
  lemma GroupShape(e: Entry)
    requires |e.members| >= 2
    ensures var g := ToGroup(e);
            && g.count == |g.ids| == |g.deleteIds| + 1
            && g.count >= 2
            && g.keepId == g.ids[0]
            && g.deleteIds == g.ids[1..]
            && (DistinctIds(e.members) ==> g.keepId !in g.deleteIds)
  {
    IdsTail(e.members);
  }

  /** Every group of the plan has that shape; with distinct row ids no group
      deletes the row it keeps. */
  lemma PlanGroupShape(rows: seq<Variety>)
    ensures forall i :: 0 <= i < |Plan(Grouping(rows))| ==>
              var g := Plan(Grouping(rows))[i];
              && g.count == |g.ids| == |g.deleteIds| + 1
              && g.count >= 2
              && g.keepId == g.ids[0]
              && g.deleteIds == g.ids[1..]
              && (DistinctIds(rows) ==> g.keepId !in g.deleteIds)
  {
    var kept := Kept(Grouping(rows));
    forall i | 0 <= i < |kept|
      ensures var g := Plan(Grouping(rows))[i];
              && g.count == |g.ids| == |g.deleteIds| + 1
              && g.count >= 2
              && g.keepId == g.ids[0]
              && g.deleteIds == g.ids[1..]
              && (DistinctIds(rows) ==> g.keepId !in g.deleteIds)
    {
      assert kept[i] in kept;
      KeptEntry(rows, kept[i]);
      if DistinctIds(rows) {
        MembersHaveDistinctIds(rows, kept[i].key);
      }
      GroupShape(kept[i]);
    }
  }

  /** When no name contains '|', the names a group reports are those of
      every one of its rows. */
  lemma PlanGroupNames(rows: seq<Variety>)
    requires forall r :: r in rows ==> FreeOfSeparator(r)
    ensures forall i :: 0 <= i < |Plan(Grouping(rows))| ==>
              var g, e := Plan(Grouping(rows))[i], Kept(Grouping(rows))[i];
              forall m :: m in e.members ==>
                (g.name, g.categoryName, g.subcategoryName) == (m.name, m.categoryName, m.subcategoryName)
  {
    var kept := Kept(Grouping(rows));
    KeptGroupsArePartition(rows);
    forall i, m | 0 <= i < |kept| && m in kept[i].members
      ensures var g := Plan(Grouping(rows))[i];
              (g.name, g.categoryName, g.subcategoryName) == (m.name, m.categoryName, m.subcategoryName)
    {
      assert kept[i] in kept;
      MembersExactly(rows, kept[i].key);
      KeyRoundTrip(m);
    }
  }

  // ----- Totals and order -----

  /** The sum of the reported `count`s, as the console shows it as the number
      of affected varieties. */
  function TotalCount(gs: seq<DuplicateGroup>): nat {
    if |gs| == 0 then 0 else gs[0].count + TotalCount(gs[1..])
  }

  /** True of the keys that occur more than once among the rows. */
  function IsDuplicatedIn(rows: seq<Variety>): string -> bool {
    k => Count(Keys(rows), k) > 1
  }

  lemma PlanCons(es: seq<Entry>)
    requires |es| > 0
    ensures Plan(es) == (if |es[0].members| > 1 then [ToGroup(es[0])] else []) + Plan(es[1..])
  {
  }

  lemma {:induction false} PlanTotal(ks: seq<string>, rows: seq<Variety>)
    ensures TotalCount(Plan(EntriesFor(ks, rows))) == SumCounts(ks, Keys(rows), IsDuplicatedIn(rows))
  {
    if |ks| > 0 {
      var es := EntriesFor(ks, rows);
      assert es[1..] == EntriesFor(ks[1..], rows);
      PlanTotal(ks[1..], rows);
      PlanCons(es);
      MembersCount(rows, ks[0]);
      var head := if |es[0].members| > 1 then [ToGroup(es[0])] else [];
      assert (head + Plan(es[1..]))[|head|..] == Plan(es[1..]);
    }
  }

  /** The counts of the reported groups add up to the number of rows whose
      key occurs at least twice: each such row is counted once. */
  lemma TotalCountIsDuplicatedRows(rows: seq<Variety>)
    ensures TotalCount(Plan(Grouping(rows))) == CountWhere(Keys(rows), IsDuplicatedIn(rows))
  {
    PlanTotal(Distinct(Keys(rows)), rows);
    SumOfDistinctCounts(Keys(rows), IsDuplicatedIn(rows));
  }

  /** The first row with key k heads the rows with key k. */
  lemma {:induction false} MembersHead(rows: seq<Variety>, k: string, i: nat)
    requires i < |rows| && Key(rows[i]) == k
    requires forall j :: 0 <= j < i ==> Key(rows[j]) != k
    ensures |Members(rows, k)| > 0 && Members(rows, k)[0] == rows[i]
  {
    var init, last := rows[..|rows| - 1], rows[|rows| - 1];
    assert rows == init + [last];
    if i == |rows| - 1 {
      assert forall j :: 0 <= j < |init| ==> Keys(init)[j] != k;
      MembersEmpty(init, k);
    } else {
      MembersHead(init, k, i);
    }
  }

  /** The kept row of a group is the first row, in read order, with the
      group's key. */
  lemma KeepIsFirstRow(rows: seq<Variety>, i: nat)
    requires i < |rows| && Count(Keys(rows), Key(rows[i])) > 1
    requires forall j :: 0 <= j < i ==> Key(rows[j]) != Key(rows[i])
    ensures exists g :: 0 <= g < |Plan(Grouping(rows))| &&
              Kept(Grouping(rows))[g].key == Key(rows[i]) && Plan(Grouping(rows))[g].keepId == rows[i].id
  {
    DuplicatedRowIsKept(rows, rows[i]);
    var kept := Kept(Grouping(rows));
    var g :| 0 <= g < |kept| && rows[i] in kept[g].members;
    KeptEntry(rows, kept[g]);
    MembersHead(rows, Key(rows[i]), i);
  }

  /** The last row with key k ends the rows with key k. */
  lemma {:induction false} MembersLast(rows: seq<Variety>, k: string, i: nat)
    requires i < |rows| && Key(rows[i]) == k
    requires forall t :: i < t < |rows| ==> Key(rows[t]) != k
    ensures |Members(rows, k)| > 0 && Members(rows, k)[|Members(rows, k)| - 1] == rows[i]
  {
    var init, last := rows[..|rows| - 1], rows[|rows| - 1];
    assert rows == init + [last];
    if i < |rows| - 1 {
      MembersLast(init, k, i);
    }
  }

  lemma MembersSnocPrefix(rows: seq<Variety>, x: Variety, k: string, a: nat)
    requires a < |Members(rows, k)|
    ensures a < |Members(rows + [x], k)| && Members(rows + [x], k)[a] == Members(rows, k)[a]
  {
    MembersSnoc(rows, x);
  }

  lemma MembersAdjacentAtEnd(rows: seq<Variety>, k: string, i: nat)
    requires i < |rows| - 1 && Key(rows[i]) == k && Key(rows[|rows| - 1]) == k
    requires forall t :: i < t < |rows| - 1 ==> Key(rows[t]) != k
    ensures var ms := Members(rows, k);
            |ms| >= 2 && ms[|ms| - 2] == rows[i] && ms[|ms| - 1] == rows[|rows| - 1]
  {
    var init := rows[..|rows| - 1];
    assert rows == init + [rows[|rows| - 1]];
    MembersLast(init, k, i);
    MembersSnoc(init, rows[|rows| - 1]);
  }

  /** Within a group, rows keep the order in which they were read: two rows
      with key k and none between them are adjacent members. */
  lemma {:induction false} MembersInReadOrder(rows: seq<Variety>, k: string, i: nat, j: nat)
    requires i < j < |rows| && Key(rows[i]) == k && Key(rows[j]) == k
    requires forall t :: i < t < j ==> Key(rows[t]) != k
    ensures exists a :: 0 <= a < |Members(rows, k)| - 1 &&
              Members(rows, k)[a] == rows[i] && Members(rows, k)[a + 1] == rows[j]
  {
    if j == |rows| - 1 {
      MembersAdjacentAtEnd(rows, k, i);
      assert Members(rows, k)[|Members(rows, k)| - 2] == rows[i];
    } else {
      var init, last := rows[..|rows| - 1], rows[|rows| - 1];
      assert rows == init + [last];
      MembersInReadOrder(init, k, i, j);
      var a :| 0 <= a < |Members(init, k)| - 1 && Members(init, k)[a] == rows[i] && Members(init, k)[a + 1] == rows[j];
      MembersSnocPrefix(init, last, k, a);
      MembersSnocPrefix(init, last, k, a + 1);
    }
  }

  lemma KeptCons(es: seq<Entry>)
    requires |es| > 0
    ensures Kept(es) == (if |es[0].members| > 1 then [es[0]] else []) + Kept(es[1..])
  {
  }

  /** Every kept entry is one of the entries. */
  lemma {:induction false} KeptFrom(es: seq<Entry>, b: nat)
    requires b < |Kept(es)|
    ensures exists q :: 0 <= q < |es| && Kept(es)[b] == es[q]
  {
    KeptCons(es);
    var rest := Kept(es[1..]);
    if |es[0].members| > 1 && b == 0 {
      assert Kept(es)[0] == es[0];
    } else {
      var b' := if |es[0].members| > 1 then b - 1 else b;
      assert Kept(es)[b] == rest[b'];
      KeptFrom(es[1..], b');
      var q :| 0 <= q < |es| - 1 && rest[b'] == es[1..][q];
      assert es[q + 1] == es[1..][q];
    }
  }

  /** Positions in the tail are positions in the whole, one further on. */
  lemma ShiftPair(es: seq<Entry>, p: int, q: nat, x: Entry, y: Entry)
    requires |es| > 0 && -1 <= p < q < |es| - 1 && y == es[1..][q]
    requires p == -1 ==> x == es[0]
    requires p >= 0 ==> x == es[1..][p]
    ensures exists p', q' :: 0 <= p' < q' < |es| && x == es[p'] && y == es[q']
  {
    assert x == es[p + 1] && y == es[q + 1];
  }

  /** A kept entry after the head's is the tail's kept entry one place back
      when the head is kept. */
  lemma KeptShift(es: seq<Entry>, i: nat)
    requires |es| > 0 && i < |Kept(es)| && !(|es[0].members| > 1 && i == 0)
    ensures var d := if |es[0].members| > 1 then 1 else 0;
            i - d < |Kept(es[1..])| && Kept(es)[i] == Kept(es[1..])[i - d]
  {
    KeptCons(es);
  }

  /** The head, when kept, precedes every other kept entry. */
  lemma KeptHeadFirst(es: seq<Entry>, b: nat)
    requires |es| > 0 && |es[0].members| > 1 && 0 < b < |Kept(es)|
    ensures exists p, q :: 0 <= p < q < |es| && Kept(es)[0] == es[p] && Kept(es)[b] == es[q]
  {
    KeptCons(es);
    KeptShift(es, b);
    KeptFrom(es[1..], b - 1);
    var q :| 0 <= q < |es| - 1 && Kept(es[1..])[b - 1] == es[1..][q];
    ShiftPair(es, -1, q, Kept(es)[0], Kept(es)[b]);
  }

  /** The filter keeps the entries in their order. */
  lemma {:induction false} KeptIsSubsequence(es: seq<Entry>, a: nat, b: nat)
    requires a < b < |Kept(es)|
    ensures exists p, q :: 0 <= p < q < |es| && Kept(es)[a] == es[p] && Kept(es)[b] == es[q]
  {
    if |es[0].members| > 1 && a == 0 {
      KeptHeadFirst(es, b);
    } else {
      var d := if |es[0].members| > 1 then 1 else 0;
      var x, y := Kept(es)[a], Kept(es)[b];
      KeptShift(es, a);
      KeptShift(es, b);
      KeptIsSubsequence(es[1..], a - d, b - d);
      var p, q :| 0 <= p < q < |es| - 1 && x == es[1..][p] && y == es[1..][q];
      ShiftPair(es, p, q, x, y);
    }
  }

  /** Groups are reported in the order in which their keys first occur. */
  lemma GroupsInFirstOccurrenceOrder(rows: seq<Variety>, a: nat, b: nat)
    requires a < b < |Kept(Grouping(rows))|
    ensures var kept := Kept(Grouping(rows));
            && kept[a].key in Keys(rows) && kept[b].key in Keys(rows)
            && FirstIndex(Keys(rows), kept[a].key) < FirstIndex(Keys(rows), kept[b].key)
  {
    var ks := Distinct(Keys(rows));
    KeptIsSubsequence(Grouping(rows), a, b);
    var p, q :| 0 <= p < q < |ks| && Kept(Grouping(rows))[a] == Grouping(rows)[p] && Kept(Grouping(rows))[b] == Grouping(rows)[q];
    assert ks[p] in ks && ks[q] in ks;
    DistinctInFirstOccurrenceOrder(Keys(rows), p, q);
  }

  // ----- Applying the plan -----

  lemma RemoveIdsSnoc(rows: seq<Variety>, x: Variety, ids: seq<Id>)
    ensures RemoveIds(rows + [x], ids) == RemoveIds(rows, ids) + (if x.id in ids then [] else [x])
  {
    assert (rows + [x])[..|rows|] == rows;
  }

  /** Removing ids and then grouping is grouping and then removing ids. */
  lemma {:induction false} MembersAfterRemoval(rows: seq<Variety>, ids: seq<Id>, k: string)
    ensures Members(RemoveIds(rows, ids), k) == RemoveIds(Members(rows, k), ids)
  {
    if |rows| > 0 {
      var init, last := rows[..|rows| - 1], rows[|rows| - 1];
      assert rows == init + [last];
      MembersAfterRemoval(init, ids, k);
      if last.id in ids {
        RemovedLastRow(init, last, ids, k);
      } else {
        KeptLastRow(init, last, ids, k);
      }
    }
  }

  lemma RemovedLastRow(init: seq<Variety>, last: Variety, ids: seq<Id>, k: string)
    requires last.id in ids
    requires Members(RemoveIds(init, ids), k) == RemoveIds(Members(init, k), ids)
    ensures Members(RemoveIds(init + [last], ids), k) == RemoveIds(Members(init + [last], k), ids)
  {
    var ms := Members(init, k);
    RemoveIdsSnoc(init, last, ids);
    assert RemoveIds(init + [last], ids) == RemoveIds(init, ids);
    MembersSnoc(init, last);
    if Key(last) == k {
      RemoveIdsSnoc(ms, last, ids);
      assert RemoveIds(ms + [last], ids) == RemoveIds(ms, ids);
    } else {
      assert Members(init + [last], k) == ms;
    }
  }

  lemma KeptLastRow(init: seq<Variety>, last: Variety, ids: seq<Id>, k: string)
    requires last.id !in ids
    requires Members(RemoveIds(init, ids), k) == RemoveIds(Members(init, k), ids)
    ensures Members(RemoveIds(init + [last], ids), k) == RemoveIds(Members(init + [last], k), ids)
  {
    var kept, ms := RemoveIds(init, ids), Members(init, k);
    RemoveIdsSnoc(init, last, ids);
    assert RemoveIds(init + [last], ids) == kept + [last];
    MembersSnoc(init, last);
    MembersSnoc(kept, last);
    if Key(last) == k {
      RemoveIdsSnoc(ms, last, ids);
    } else {
      assert Members(init + [last], k) == ms;
      assert Members(kept + [last], k) == Members(kept, k);
    }
  }

  /** The bulk delete removes exactly the rows whose id is listed: a row
      survives exactly when its id is not in the list. */
  lemma {:induction false} RemoveIdsExactly(rows: seq<Variety>, ids: seq<Id>)
    ensures forall r :: r in RemoveIds(rows, ids) <==> r in rows && r.id !in ids
  {
    if |rows| > 0 {
      var init, last := rows[..|rows| - 1], rows[|rows| - 1];
      assert rows == init + [last];
      RemoveIdsExactly(init, ids);
    }
  }

  /** When every row but the first is to be removed, at most the first is left. */
  lemma {:induction false} RemoveAllButFirst(ms: seq<Variety>, ids: seq<Id>)
    requires forall t :: 1 <= t < |ms| ==> ms[t].id in ids
    ensures RemoveIds(ms, ids) == if |ms| > 0 && ms[0].id !in ids then [ms[0]] else []
  {
    if |ms| > 1 {
      var init, last := ms[..|ms| - 1], ms[|ms| - 1];
      assert ms == init + [last];
      RemoveAllButFirst(init, ids);
    } else if |ms| == 1 {
      assert ms == [] + [ms[0]];
      RemoveIdsSnoc([], ms[0], ids);
    }
  }

  lemma {:induction false} FlatDeleteIdsHas(gs: seq<DuplicateGroup>, i: nat, t: nat)
    requires i < |gs| && t < |gs[i].deleteIds|
    ensures gs[i].deleteIds[t] in FlatDeleteIds(gs)
  {
    if i > 0 {
      FlatDeleteIdsHas(gs[1..], i - 1, t);
    }
  }

  lemma {:induction false} FlatDeleteIdsFrom(gs: seq<DuplicateGroup>, id: Id)
    requires id in FlatDeleteIds(gs)
    ensures exists i :: 0 <= i < |gs| && id in gs[i].deleteIds
  {
    if id !in gs[0].deleteIds {
      FlatDeleteIdsFrom(gs[1..], id);
      var i :| 0 <= i < |gs| - 1 && id in gs[1..][i].deleteIds;
      assert gs[i + 1] == gs[1..][i];
    }
  }

  /** A key that occurs at least twice has a reported group holding its rows. */
  lemma KeptGroupOf(rows: seq<Variety>, k: string)
    requires Count(Keys(rows), k) > 1
    ensures exists g :: 0 <= g < |Kept(Grouping(rows))| && Kept(Grouping(rows))[g].members == Members(rows, k)
  {
    var ms := Members(rows, k);
    var kept := Kept(Grouping(rows));
    MembersCount(rows, k);
    assert ms[0] in rows && Key(ms[0]) == k by {
      assert ms[0] in ms;
      MembersExactly(rows, k);
    }
    DuplicatedRowIsKept(rows, ms[0]);
    var g :| 0 <= g < |kept| && ms[0] in kept[g].members;
    assert kept[g] in kept;
    KeptEntry(rows, kept[g]);
  }

  /** Every row but the first of a duplicated key is submitted for deletion. */
  lemma LaterRowsAreDeleted(rows: seq<Variety>, k: string)
    requires Count(Keys(rows), k) > 1
    ensures var ms := Members(rows, k);
            forall t :: 1 <= t < |ms| ==> ms[t].id in FlatDeleteIds(Plan(Grouping(rows)))
  {
    KeptGroupOf(rows, k);
    var g :| 0 <= g < |Kept(Grouping(rows))| && Kept(Grouping(rows))[g].members == Members(rows, k);
    KeptRowsDeleted(Grouping(rows), g);
  }

  /** Every row but the first of a kept entry has its id in the flattened
      `deleteIds` of the plan. */
  lemma KeptRowsDeleted(es: seq<Entry>, g: nat)
    requires g < |Kept(es)|
    ensures var ms := Kept(es)[g].members;
            forall t :: 1 <= t < |ms| ==> ms[t].id in FlatDeleteIds(Plan(es))
  {
    var kept, plan := Kept(es), Plan(es);
    assert plan[g] == ToGroup(kept[g]);
    forall t | 1 <= t < |kept[g].members| ensures kept[g].members[t].id in FlatDeleteIds(plan) {
      ToGroupDeletes(kept[g], t);
      FlatDeleteIdsHas(plan, g, t - 1);
    }
  }

  lemma ToGroupDeletes(e: Entry, t: nat)
    requires 1 <= t < |e.members|
    ensures t - 1 < |ToGroup(e).deleteIds| && ToGroup(e).deleteIds[t - 1] == e.members[t].id
  {
  }

  /** Every id submitted for deletion is that of a row which is not the
      first of its key. */
  lemma DeletedIdIsLaterRow(rows: seq<Variety>, id: Id)
    requires id in FlatDeleteIds(Plan(Grouping(rows)))
    ensures exists k, t :: 1 <= t < |Members(rows, k)| && Members(rows, k)[t].id == id
  {
    var kept := Kept(Grouping(rows));
    DeletedIdOfKept(Grouping(rows), id);
    var g, t :| 0 <= g < |kept| && 1 <= t < |kept[g].members| && kept[g].members[t].id == id;
    assert kept[g] in kept;
    KeptEntry(rows, kept[g]);
  }

  /** Every id of the plan's flattened `deleteIds` is that of a kept
      entry's row other than its first. */
  lemma DeletedIdOfKept(es: seq<Entry>, id: Id)
    requires id in FlatDeleteIds(Plan(es))
    ensures exists g, t :: 0 <= g < |Kept(es)| && 1 <= t < |Kept(es)[g].members| && Kept(es)[g].members[t].id == id
  {
    var plan, kept := Plan(es), Kept(es);
    FlatDeleteIdsFrom(plan, id);
    var g :| 0 <= g < |plan| && id in plan[g].deleteIds;
    assert plan[g] == ToGroup(kept[g]);
    var t :| 0 <= t < |plan[g].deleteIds| && plan[g].deleteIds[t] == id;
    ToGroupDeletes(kept[g], t + 1);
  }

  /** With distinct ids, a row is determined by its id. */
  lemma SameIdSameRow(rows: seq<Variety>, x: Variety, y: Variety)
    requires DistinctIds(rows) && x in rows && y in rows && x.id == y.id
    ensures x == y
  {
    var p :| 0 <= p < |rows| && rows[p] == x;
    var q :| 0 <= q < |rows| && rows[q] == y;
    assert p == q;
  }

  /** With distinct ids, the first row of a key is never submitted. */
  lemma FirstRowIsNotDeleted(rows: seq<Variety>, k: string)
    requires DistinctIds(rows) && |Members(rows, k)| > 0
    ensures Members(rows, k)[0].id !in FlatDeleteIds(Plan(Grouping(rows)))
  {
    var ms := Members(rows, k);
    if ms[0].id in FlatDeleteIds(Plan(Grouping(rows))) {
      DeletedIdIsLaterRow(rows, ms[0].id);
      var k', t :| 1 <= t < |Members(rows, k')| && Members(rows, k')[t].id == ms[0].id;
      var m := Members(rows, k')[t];
      assert m in rows && Key(m) == k' by {
        assert m in Members(rows, k');
        MembersExactly(rows, k');
      }
      assert ms[0] in rows && Key(ms[0]) == k by {
        assert ms[0] in ms;
        MembersExactly(rows, k);
      }
      SameIdSameRow(rows, m, ms[0]);
      MembersHaveDistinctIds(rows, k);
      assert false;
    }
  }

  /** Deleting the plan of a scan from the rows it scanned leaves, for every
      key, exactly the row the plan kept: no key loses all its rows, and a
      second scan reports no duplicates. */
  lemma ApplyKeepsFirstOfEachKey(rows: seq<Variety>, k: string)
    requires DistinctIds(rows) && Members(rows, k) != []
    ensures Members(RemoveIds(rows, FlatDeleteIds(Plan(Grouping(rows)))), k) == [Members(rows, k)[0]]
  {
    var ids := FlatDeleteIds(Plan(Grouping(rows)));
    var ms := Members(rows, k);
    MembersAfterRemoval(rows, ids, k);
    if |ms| > 1 {
      MembersCount(rows, k);
      LaterRowsAreDeleted(rows, k);
    }
    FirstRowIsNotDeleted(rows, k);
    RemoveAllButFirst(ms, ids);
  }

  /** After the plan of a scan is applied to the rows it scanned, scanning
      again reports no duplicate groups. */
  lemma RescanAfterApplyIsEmpty(rows: seq<Variety>)
    ensures Plan(Grouping(RemoveIds(rows, FlatDeleteIds(Plan(Grouping(rows)))))) == []
  {
    var ids := FlatDeleteIds(Plan(Grouping(rows)));
    var rest := RemoveIds(rows, ids);
    forall k ensures |Members(rest, k)| <= 1 {
      MembersAfterRemoval(rows, ids, k);
      var ms := Members(rows, k);
      if |ms| > 1 {
        MembersCount(rows, k);
        LaterRowsAreDeleted(rows, k);
        RemoveAllButFirst(ms, ids);
      }
    }
    KeptOfSmallIsEmpty(Grouping(rest));
  }

  lemma {:induction false} KeptOfSmallIsEmpty(es: seq<Entry>)
    requires forall i :: 0 <= i < |es| ==> |es[i].members| <= 1
    ensures Kept(es) == []
  {
    if |es| > 0 {
      KeptOfSmallIsEmpty(es[1..]);
    }
  }

  // ----- A worked example -----

  const Tomato1 := Variety("1", "Tomato", "Veg", "Nightshade")
  const Tomato2 := Variety("2", "Tomato", "Veg", "Nightshade")
  const Basil3 := Variety("3", "Basil", "Herb", "Culinary")

  lemma ExampleKeys()
    ensures Keys([Tomato1, Tomato2, Basil3]) == [Key(Tomato1), Key(Tomato1), Key(Basil3)]
    ensures Key(Tomato1) != Key(Basil3)
  {
    assert Key(Tomato1)[0] == 'T' && Key(Basil3)[0] == 'B';
  }

  lemma DistinctOfRepeat<K(!new)>(a: K, b: K)
    requires a != b
    ensures Distinct([a, a, b]) == [a, b]
  {
    assert Distinct([a]) == [a] by {
      DistinctSnoc([], a);
      assert [] + [a] == [a];
    }
    assert Distinct([a, a]) == [a] by {
      DistinctSnoc([a], a);
      assert [a] + [a] == [a, a];
    }
    DistinctSnoc([a, a], b);
    assert [a, a] + [b] == [a, a, b];
  }

  lemma ExampleDistinct()
    ensures Distinct(Keys([Tomato1, Tomato2, Basil3])) == [Key(Tomato1), Key(Basil3)]
  {
    ExampleKeys();
    DistinctOfRepeat(Key(Tomato1), Key(Basil3));
  }

  lemma ExampleMembers()
    ensures Members([Tomato1, Tomato2, Basil3], Key(Tomato1)) == [Tomato1, Tomato2]
    ensures Members([Tomato1, Tomato2, Basil3], Key(Basil3)) == [Basil3]
  {
    ExampleKeys();
    MembersSnoc([], Tomato1);
    MembersSnoc([Tomato1], Tomato2);
    MembersSnoc([Tomato1, Tomato2], Basil3);
    assert [] + [Tomato1] == [Tomato1] && [Tomato1] + [Tomato2] == [Tomato1, Tomato2];
    assert [Tomato1, Tomato2] + [Basil3] == [Tomato1, Tomato2, Basil3];
  }

  lemma ExampleGrouping()
    ensures Grouping([Tomato1, Tomato2, Basil3]) ==
            [Entry(Key(Tomato1), [Tomato1, Tomato2]), Entry(Key(Basil3), [Basil3])]
  {
    ExampleDistinct();
    ExampleMembers();
  }

  lemma ExamplePlan()
    ensures Plan(Grouping([Tomato1, Tomato2, Basil3])) == [ToGroup(Entry(Key(Tomato1), [Tomato1, Tomato2]))]
  {
    ExampleGrouping();
    var es := Grouping([Tomato1, Tomato2, Basil3]);
    KeptCons(es);
    KeptCons(es[1..]);
    assert Kept(es) == [es[0]];
  }

  /** Two identical Tomato rows and one Basil row: the scan reports one
      group keeping id "1" and deleting id "2", and applying it leaves the
      rows with ids "1" and "3". */
  lemma TomatoExample()
    ensures var rows := [Tomato1, Tomato2, Basil3];
            var plan := Plan(Grouping(rows));
            && |plan| == 1 && plan[0].count == 2 && plan[0].keepId == "1" && plan[0].deleteIds == ["2"]
            && RemoveIds(rows, FlatDeleteIds(plan)) == [Tomato1, Basil3]
  {
    ExamplePlan();
    var plan := Plan(Grouping([Tomato1, Tomato2, Basil3]));
    assert plan[0].deleteIds == ["2"];
    assert FlatDeleteIds(plan) == ["2"];
    RemoveIdsSnoc([], Tomato1, ["2"]);
    RemoveIdsSnoc([Tomato1], Tomato2, ["2"]);
    RemoveIdsSnoc([Tomato1, Tomato2], Basil3, ["2"]);
    assert [] + [Tomato1] == [Tomato1] && [Tomato1] + [Tomato2] == [Tomato1, Tomato2];
    assert [Tomato1, Tomato2] + [Basil3] == [Tomato1, Tomato2, Basil3];
  }
}
