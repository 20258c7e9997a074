/** The shared store helpers: the configuration check, the anonymous client
    built at load time, the lazily built admin client, the per-category
    statistics and the fallback read of the catalogue. */
module Supabase {
  import opened Common
  import opened Tally

  /** The placeholders of the example environment file. */
  const UrlPlaceholder: string := "your_supabase_url_here"
  const KeyPlaceholder: string := "your_supabase_anon_key_here"

  /** `isValidSupabaseConfig` over the public URL and the anonymous key; an
      unset variable is "". */
  predicate IsValidConfig(url: string, anonKey: string) {
    && url != ""
    && anonKey != ""
    && url != UrlPlaceholder
    && anonKey != KeyPlaceholder
    && StartsWith(url, "https://")
    && Contains(url, "supabase.co")
  }

  /** The URL's emptiness and placeholder checks are implied by its
      `https://` prefix: the configuration is valid exactly when the key is
      set and not its placeholder and the URL is an https URL mentioning
      supabase.co. */
  lemma ValidConfigCharacterised(url: string, anonKey: string)
    ensures IsValidConfig(url, anonKey) <==>
            && anonKey != ""
            && anonKey != KeyPlaceholder
            && StartsWith(url, "https://")
            && Contains(url, "supabase.co")
  {
    if StartsWith(url, "https://") {
      assert url[0] == 'h';
      assert UrlPlaceholder[0] == 'y';
    }
  }

  /** A store client and the credentials it was built with. */
  class Client {
    const url: string
    const key: string

    constructor (url: string, key: string)
      ensures this.url == url && this.key == key
    {
      this.url := url;
      this.key := key;
    }
  }

  /** What a helper throws. */
  datatype Thrown =
    | NotInitialised      // 'Supabase client not initialized'
    | MissingAdminEnv     // 'Missing Supabase admin environment variables'
    | StoreError(message: string)
    | NullData            // a property read on a null result

  datatype Outcome<+T> = Returned(value: T) | Threw(error: Thrown)

  /** The per-category counts of getVarietyStats. */
  datatype Stats = Stats(total: nat, byCategory: map<string, nat>)

  /** A JSON value of a catalogue row (fractional numbers and nested values
      are not modelled). */
  datatype Value = Null | Bool(b: bool) | Num(n: int) | Text(s: string)

  /** A row as the store returns it: column name to value. */
  type Row = map<string, Value>

  const FarmCount: string := "farm_count"

  /** A category name used as a property name: JavaScript turns null into
      the string "null", so a null category and one named "null" share an
      entry. */
  function PropertyKey(category: Option<string>): (key: string)
    ensures category.Some? ==> key == category.value
    ensures key == "null" <==> category.None? || category == Some("null")
  {
    if category.None? then "null" else category.value
  }

  function PropertyKeys(categories: seq<Option<string>>): seq<string> {
    seq(|categories|, i requires 0 <= i < |categories| => PropertyKey(categories[i]))
  }

  /** The count of each key among ks. */
  function ByCategory(ks: seq<string>): map<string, nat> {
    map c | c in ks :: Count(ks, c)
  }

  lemma ByCategorySnoc(ks: seq<string>, c: string)
    ensures ByCategory(ks + [c]) ==
            ByCategory(ks)[c := (if c in ByCategory(ks) then ByCategory(ks)[c] else 0) + 1]
  {
    var m, m' := ByCategory(ks), ByCategory(ks + [c]);
    assert (ks + [c])[..|ks|] == ks;
    CountZero(ks, c);
    forall k | k in m' ensures m'[k] == Count(ks, k) + (if k == c then 1 else 0) {
    }
    assert m'.Keys == m.Keys + {c};
  }

  lemma ByCategoryNext(ks: seq<string>, i: nat)
    requires i < |ks|
    ensures ByCategory(ks[..i + 1]) ==
            ByCategory(ks[..i])[ks[i] := (if ks[i] in ByCategory(ks[..i]) then ByCategory(ks[..i])[ks[i]] else 0) + 1]
  {
    assert ks[..i + 1] == ks[..i] + [ks[i]];
    ByCategorySnoc(ks[..i], ks[i]);
  }

  /** The module's load-time state: the configuration, the anonymous client
      (null when the configuration is invalid) and the cached admin client. */
  class SupabaseModule {
    const url: string
    const anonKey: string
    const anon: Client?
    var admin: Client?

    constructor (url: string, anonKey: string)
      ensures this.url == url && this.anonKey == anonKey && admin == null
      ensures IsValidConfig(url, anonKey) ==> anon != null && fresh(anon) && anon.url == url && anon.key == anonKey
      ensures !IsValidConfig(url, anonKey) ==> anon == null
    {
      this.url := url;
      this.anonKey := anonKey;
      if IsValidConfig(url, anonKey) {
        anon := new Client(url, anonKey);
      } else {
        anon := null;
      }
      admin := null;
    }

    /** getSupabaseAdmin: the cached client if there is one; otherwise it
        throws, caching nothing, unless the configuration is valid and the
        service key is set, in which case it builds, caches and returns a
        client for the URL and the service key. */
    method GetSupabaseAdmin(serviceKey: string) returns (r: Outcome<Client>)
      modifies this
      ensures old(admin) != null ==> r == Returned(old(admin)) && admin == old(admin)
      ensures old(admin) == null && !(IsValidConfig(url, anonKey) && serviceKey != "") ==>
                r == Threw(MissingAdminEnv) && admin == null
      ensures old(admin) == null && IsValidConfig(url, anonKey) && serviceKey != "" ==>
                r.Returned? && fresh(r.value) && admin == r.value &&
                r.value.url == url && r.value.key == serviceKey
    {
      if admin == null {
        if !IsValidConfig(url, anonKey) || serviceKey == "" {
          return Threw(MissingAdminEnv);
        }
        admin := new Client(url, serviceKey);
      }
      r := Returned(admin);
    }

    /** Once a call has built the admin client, every later call returns that
        same client, whatever service key it reads then. */
    method AdminIsCached(firstKey: string, laterKey: string) returns (first: Outcome<Client>, later: Outcome<Client>)
      modifies this
      ensures first.Returned? ==> later == first
      ensures old(admin) == null && IsValidConfig(url, anonKey) && firstKey != "" ==> first.Returned?
    {
      first := GetSupabaseAdmin(firstKey);
      later := GetSupabaseAdmin(laterKey);
    }

    /** getVarietyStats over the `category_name` column it reads: the number
        of rows and, per category, the number of rows in it. */
    method GetVarietyStats(read: Fetched<Option<string>>) returns (r: Outcome<Stats>)
      ensures anon == null ==> r == Threw(NotInitialised)
      ensures anon != null && read.FetchFailed? ==> r == Threw(StoreError(read.message))
      ensures anon != null && read == Fetched(None) ==> r == Threw(NullData)
      ensures anon != null && read.Fetched? && read.data.Some? ==>
                r == Returned(Stats(|read.data.value|, ByCategory(PropertyKeys(read.data.value))))
    {
      if anon == null {
        return Threw(NotInitialised);
      }
      if read.FetchFailed? {
        return Threw(StoreError(read.message));
      }
      if read.data.None? {
        return Threw(NullData);
      }
      var data := read.data.value;
      var keys := PropertyKeys(data);
      var acc: map<string, nat> := map[];
      for i := 0 to |data|
        invariant acc == ByCategory(keys[..i])
      {
        ByCategoryNext(keys, i);
        var c := PropertyKey(data[i]);
        acc := acc[c := (if c in acc then acc[c] else 0) + 1];
      }
      assert keys[..|data|] == keys;
      r := Returned(Stats(|data|, acc));
    }

    /** getAllVarieties: the RPC's rows (or [] when it returns none); when
        the RPC fails, the rows of the plain view with `farm_count` set to 0,
        or what that read throws. */
    method GetAllVarieties(rpc: Fetched<Row>, fallback: Fetched<Row>) returns (r: Outcome<seq<Row>>)
      ensures anon == null ==> r == Threw(NotInitialised)
      ensures anon != null && rpc.Fetched? ==> r == Returned(rpc.data.GetOr([]))
      ensures anon != null && rpc.FetchFailed? && fallback.FetchFailed? ==> r == Threw(StoreError(fallback.message))
      ensures anon != null && rpc.FetchFailed? && fallback.Fetched? ==>
                r == Returned(WithZeroFarmCount(fallback.data.GetOr([])))
    {
      if anon == null {
        return Threw(NotInitialised);
      }
      if rpc.Fetched? {
        return Returned(rpc.data.GetOr([]));
      }
      if fallback.FetchFailed? {
        return Threw(StoreError(fallback.message));
      }
      r := Returned(WithZeroFarmCount(fallback.data.GetOr([])));
    }
  }

  /** The fallback decoration `{ ...variety, farm_count: 0 }`: the same rows
      in the same order, each with `farm_count` 0 and every other column as
      it was. */
  function WithZeroFarmCount(rows: seq<Row>): (r: seq<Row>)
    ensures |r| == |rows|
    ensures forall i :: 0 <= i < |r| ==> FarmCount in r[i] && r[i][FarmCount] == Num(0)
    ensures forall i :: 0 <= i < |r| ==> r[i].Keys == rows[i].Keys + {FarmCount}
    ensures forall i, f :: 0 <= i < |r| && f != FarmCount && f in rows[i] ==> r[i][f] == rows[i][f]
  {
    seq(|rows|, i requires 0 <= i < |rows| => rows[i][FarmCount := Num(0)])
  }

  // ----- The statistics add up -----

  function Anything(c: string): bool {
    true
  }

  /** The sum of m[k] over the keys ks (a key missing from m adds 0). */
  function SumOver(ks: seq<string>, m: map<string, nat>): nat {
    if |ks| == 0 then 0 else (if ks[0] in m then m[ks[0]] else 0) + SumOver(ks[1..], m)
  }

  lemma {:induction false} CountWhereAnything(xs: seq<string>)
    ensures CountWhere(xs, Anything) == |xs|
  {
    if |xs| > 0 {
      CountWhereAnything(xs[..|xs| - 1]);
    }
  }

  lemma {:induction false} SumOverByCategory(ks: seq<string>, xs: seq<string>)
    ensures SumOver(ks, ByCategory(xs)) == SumCounts(ks, xs, Anything)
  {
    if |ks| > 0 {
      SumOverByCategory(ks[1..], xs);
      if ks[0] !in xs {
        CountZero(xs, ks[0]);
      }
    }
  }

  /** The per-category counts add up to the total: summed over the
      categories in the order they first occur, they give the number of
      rows read. */
  lemma StatsAddUp(categories: seq<Option<string>>)
    ensures var ks := PropertyKeys(categories);
            SumOver(Distinct(ks), ByCategory(ks)) == |categories|
  {
    var ks := PropertyKeys(categories);
    SumOverByCategory(Distinct(ks), ks);
    SumOfDistinctCounts(ks, Anything);
    CountWhereAnything(ks);
  }

  /** Every category that occurs has an entry, and only those do; its count
      is the number of rows in it and at least 1. */
  lemma StatsEntries(categories: seq<Option<string>>, c: Option<string>)
    ensures var m := ByCategory(PropertyKeys(categories));
            (PropertyKey(c) in m <==> exists i :: 0 <= i < |categories| && PropertyKey(categories[i]) == PropertyKey(c)) &&
            (PropertyKey(c) in m ==> m[PropertyKey(c)] >= 1)
  {
    var ks := PropertyKeys(categories);
    CountZero(ks, PropertyKey(c));
    if PropertyKey(c) in ks {
      var i :| 0 <= i < |ks| && ks[i] == PropertyKey(c);
      assert PropertyKey(categories[i]) == PropertyKey(c);
    } else {
      forall i | 0 <= i < |categories| ensures PropertyKey(categories[i]) != PropertyKey(c) {
        assert ks[i] in ks;
      }
    }
  }
}
