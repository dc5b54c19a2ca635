/**
  The history screen's `loadData`: group the listed transactions into one
  section per calendar day, days newest first.

  The day of a transaction (`format(parseISO(date), 'yyyy-MM-dd')`, in the
  device's local time zone) is the uninterpreted parameter `dayKey`. Days
  are ordered as strings; for `yyyy-MM-dd` keys that is the order of the
  dates they name.
 */
module History {
  import opened Types
  import opened Collation
  import Store

  /** One section of the list: its day key and its transactions. */
  datatype Section = Section(day: string, data: seq<Transaction>)

  /** The transactions of `data` that fall on `day`, in their order in `data`. */
  function Bucket(data: seq<Transaction>, dayKey: string -> string, day: string): (b: seq<Transaction>)
    ensures forall t :: t in b ==> t in data && dayKey(t.date) == day
  {
    if data == [] then []
    else
      var last := data[|data| - 1];
      Bucket(data[..|data| - 1], dayKey, day) + (if dayKey(last.date) == day then [last] else [])
  }

  /** The set of days that occur in `data`. */
  ghost function DayKeys(data: seq<Transaction>, dayKey: string -> string): set<string> {
    set t | t in data :: dayKey(t.date)
  }

  /** All sections' transactions, section after section. */
  function Flatten(sections: seq<Section>): seq<Transaction> {
    if sections == [] then [] else sections[0].data + Flatten(sections[1..])
  }

  /** The buckets of the days `days`, one after the other. */
  function Gather(data: seq<Transaction>, dayKey: string -> string, days: seq<string>): seq<Transaction> {
    if days == [] then [] else Bucket(data, dayKey, days[0]) + Gather(data, dayKey, days[1..])
  }

  /**
    `sections` is the grouping of `data` by day that `loadData` produces:
    one section per day occurring in `data` and no other, days strictly
    descending, each section holding exactly that day's transactions in
    their input order, no section empty, and nothing lost or duplicated.
   */
  ghost predicate IsDayGrouping(data: seq<Transaction>, dayKey: string -> string, sections: seq<Section>) {
    && (forall j :: 0 <= j < |sections| ==> sections[j].data == Bucket(data, dayKey, sections[j].day))
    && (forall j :: 0 <= j < |sections| ==> sections[j].data != [])
    && (forall k :: k in DayKeys(data, dayKey) <==> exists j :: 0 <= j < |sections| && sections[j].day == k)
    && (forall i, j :: 0 <= i < j < |sections| ==> LexLt(sections[j].day, sections[i].day))
    && |sections| == |DayKeys(data, dayKey)|
    && multiset(Flatten(sections)) == multiset(data)
  }

  /** Appending a transaction extends the bucket of its own day only. */
  lemma BucketAppend(data: seq<Transaction>, t: Transaction, dayKey: string -> string, day: string)
    ensures Bucket(data + [t], dayKey, day)
         == Bucket(data, dayKey, day) + (if dayKey(t.date) == day then [t] else [])
  {
    assert (data + [t])[..|data|] == data;
  }

  /** The bucket of a day that occurs in `data` is not empty. */
  lemma {:induction false} BucketNonEmpty(data: seq<Transaction>, dayKey: string -> string, day: string)
    requires day in DayKeys(data, dayKey)
    ensures Bucket(data, dayKey, day) != []
  {
    var init := data[..|data| - 1];
    var last := data[|data| - 1];
    if dayKey(last.date) != day {
      var t :| t in data && dayKey(t.date) == day;
      assert data == init + [last];
      assert t in init;
      BucketNonEmpty(init, dayKey, day);
    }
  }

  /** `a` is `b` with some elements left out, the rest in the same order. */
  ghost predicate IsSubsequence<T>(a: seq<T>, b: seq<T>)
    decreases |b|
  {
    if a == [] then true
    else if b == [] then false
    else
      (a[|a| - 1] == b[|b| - 1] && IsSubsequence(a[..|a| - 1], b[..|b| - 1]))
      || IsSubsequence(a, b[..|b| - 1])
  }

  /** Grouping is stable: a section keeps its transactions in their input order. */
  lemma {:induction false} BucketIsSubsequence(data: seq<Transaction>, dayKey: string -> string, day: string)
    ensures IsSubsequence(Bucket(data, dayKey, day), data)
  {
    if data != [] {
      var init := data[..|data| - 1];
      var last := data[|data| - 1];
      var b := Bucket(data, dayKey, day);
      var b' := Bucket(init, dayKey, day);
      BucketIsSubsequence(init, dayKey, day);
      if dayKey(last.date) == day {
        assert b == b' + [last];
        assert b[..|b| - 1] == b' && b[|b| - 1] == data[|data| - 1];
      } else {
        assert b == b';
      }
    }
  }

  /** Gathering distinct days after appending `t` adds `t` once if its day is among them. */
  lemma {:induction false} GatherAppend(data: seq<Transaction>, t: Transaction, dayKey: string -> string, days: seq<string>)
    requires Distinct(days)
    ensures multiset(Gather(data + [t], dayKey, days))
         == multiset(Gather(data, dayKey, days)) + (if dayKey(t.date) in days then multiset{t} else multiset{})
  {
    if days != [] {
      var k := dayKey(t.date);
      var one: multiset<Transaction> := multiset{t};
      var none: multiset<Transaction> := multiset{};
      assert Distinct(days[1..]);
      GatherAppend(data, t, dayKey, days[1..]);
      BucketAppend(data, t, dayKey, days[0]);
      var head := Bucket(data, dayKey, days[0]);
      var tail := Gather(data, dayKey, days[1..]);
      assert multiset(Bucket(data + [t], dayKey, days[0])) == multiset(head) + (if k == days[0] then one else none);
      assert multiset(Gather(data + [t], dayKey, days[1..])) == multiset(tail) + (if k in days[1..] then one else none);
      assert k in days <==> k == days[0] || k in days[1..];
      assert k == days[0] ==> k !in days[1..];
    }
  }

  /** Gathering every day of `data`, each once, is a permutation of `data`. */
  lemma {:induction false} GatherIsPermutation(data: seq<Transaction>, dayKey: string -> string, days: seq<string>)
    requires Distinct(days)
    requires forall t :: t in data ==> dayKey(t.date) in days
    ensures multiset(Gather(data, dayKey, days)) == multiset(data)
  {
    if data == [] {
      GatherEmpty(dayKey, days);
    } else {
      var init := data[..|data| - 1];
      var last := data[|data| - 1];
      assert data == init + [last];
      GatherIsPermutation(init, dayKey, days);
      GatherAppend(init, last, dayKey, days);
    }
  }

  lemma {:induction false} GatherEmpty(dayKey: string -> string, days: seq<string>)
    ensures Gather([], dayKey, days) == []
  {
    if days != [] {
      GatherEmpty(dayKey, days[1..]);
    }
  }

  lemma {:induction false} FlattenIsGather(data: seq<Transaction>, dayKey: string -> string, sections: seq<Section>, days: seq<string>)
    requires |sections| == |days|
    requires forall j :: 0 <= j < |days| ==> sections[j] == Section(days[j], Bucket(data, dayKey, days[j]))
    ensures Flatten(sections) == Gather(data, dayKey, days)
  {
    if days != [] {
      FlattenIsGather(data, dayKey, sections[1..], days[1..]);
    }
  }

  lemma DayKeysAppend(data: seq<Transaction>, t: Transaction, dayKey: string -> string)
    ensures DayKeys(data + [t], dayKey) == DayKeys(data, dayKey) + {dayKey(t.date)}
  {
    assert forall u :: u in data + [t] <==> u in data || u == t;
  }

  /** A day that occurs nowhere in `data` has an empty bucket. */
  lemma BucketOfAbsentDay(data: seq<Transaction>, dayKey: string -> string, day: string)
    requires day !in DayKeys(data, dayKey)
    ensures Bucket(data, dayKey, day) == []
  {
  }

  /**
    Sections built from the buckets of every day of `data`, each day once,
    sorted newest first, form the day grouping of `data`.
   */
  lemma SortedBucketsAreDayGrouping(data: seq<Transaction>, dayKey: string -> string,
                                    keys: seq<string>, days: seq<string>, sections: seq<Section>)
    requires Distinct(keys)
    requires forall k :: k in keys <==> k in DayKeys(data, dayKey)
    requires multiset(days) == multiset(keys) && SortedDescBy(days, Identity)
    requires |sections| == |days|
    requires forall j :: 0 <= j < |days| ==> sections[j] == Section(days[j], Bucket(data, dayKey, days[j]))
    ensures IsDayGrouping(data, dayKey, sections)
  {
    assert |sections| == |DayKeys(data, dayKey)| by {
      PermutationSameElements(keys, days);
      PermutationKeepsDistinct(keys, days);
      assert (set x | x in days) == DayKeys(data, dayKey);
      DistinctCardinality(days);
    }
    assert multiset(Flatten(sections)) == multiset(data) by {
      PermutationSameElements(keys, days);
      PermutationKeepsDistinct(keys, days);
      FlattenIsGather(data, dayKey, sections, days);
      GatherIsPermutation(data, dayKey, days);
    }
    assert forall i, j :: 0 <= i < j < |sections| ==> LexLt(sections[j].day, sections[i].day) by {
      PermutationKeepsDistinct(keys, days);
      SortedDistinctIsStrict(days);
    }
    assert forall k :: k in DayKeys(data, dayKey) <==> exists j :: 0 <= j < |sections| && sections[j].day == k by {
      PermutationSameElements(keys, days);
      SectionsCoverDays(sections, days, DayKeys(data, dayKey));
    }
    assert forall j :: 0 <= j < |sections| ==> sections[j].data != [] by {
      PermutationSameElements(keys, days);
      forall j | 0 <= j < |sections|
        ensures sections[j].data != []
      {
        BucketNonEmpty(data, dayKey, days[j]);
      }
    }
  }

  lemma PermutationSameElements<T>(s: seq<T>, r: seq<T>)
    requires multiset(r) == multiset(s)
    ensures forall x :: x in r <==> x in s
  {
    forall x
      ensures x in r <==> x in s
    {
      assert x in r <==> x in multiset(r);
      assert x in s <==> x in multiset(s);
    }
  }

  lemma SectionsCoverDays(sections: seq<Section>, days: seq<string>, all: set<string>)
    requires |sections| == |days|
    requires forall j :: 0 <= j < |days| ==> sections[j].day == days[j]
    requires forall k :: k in days <==> k in all
    ensures forall k :: k in all <==> exists j :: 0 <= j < |sections| && sections[j].day == k
  {
    forall k | k in all
      ensures exists j :: 0 <= j < |sections| && sections[j].day == k
    {
      var j :| 0 <= j < |days| && days[j] == k;
      assert sections[j].day == k;
    }
  }

  /**
    The `forEach` loop of `loadData`: a day's bucket is created the first
    time one of its transactions is met, and every transaction is pushed
    onto its day's bucket. `keys` are the object's keys in creation order.
   */
  method BucketsByDay(data: seq<Transaction>, dayKey: string -> string)
    returns (grouped: map<string, seq<Transaction>>, keys: seq<string>)
    ensures Distinct(keys)
    ensures forall k :: k in grouped <==> k in keys
    ensures forall k :: k in keys <==> k in DayKeys(data, dayKey)
    ensures forall k :: k in grouped ==> grouped[k] == Bucket(data, dayKey, k)
  {
    grouped, keys := map[], [];
    var i := 0;
    while i < |data|
      invariant 0 <= i <= |data|
      invariant Distinct(keys)
      invariant forall k :: k in grouped <==> k in keys
      invariant forall k :: k in keys <==> k in DayKeys(data[..i], dayKey)
      invariant forall k :: k in grouped ==> grouped[k] == Bucket(data[..i], dayKey, k)
    {
      var t := data[i];
      var k := dayKey(t.date);
      assert data[..i + 1] == data[..i] + [t];
      DayKeysAppend(data[..i], t, dayKey);
      forall k' | k' in grouped
        ensures Bucket(data[..i + 1], dayKey, k') == grouped[k'] + (if k == k' then [t] else [])
      {
        BucketAppend(data[..i], t, dayKey, k');
      }
      if k !in grouped {
        BucketOfAbsentDay(data[..i], dayKey, k);
        BucketAppend(data[..i], t, dayKey, k);
        grouped := grouped[k := []];
        keys := keys + [k];
      }
      grouped := grouped[k := grouped[k] + [t]];
      i := i + 1;
    }
    assert data[..i] == data;
  }

  /**
    `loadData` after fetching: the grouping loop, then the bucket keys
    sorted newest first and each mapped to its section.
   */
  method GroupByDay(data: seq<Transaction>, dayKey: string -> string) returns (sections: seq<Section>)
    ensures IsDayGrouping(data, dayKey, sections)
  {
    var grouped, keys := BucketsByDay(data, dayKey);
    var days := SortDescBy(keys, Identity);
    assert forall j :: 0 <= j < |days| ==> days[j] in multiset(keys);
    sections := seq(|days|, j requires 0 <= j < |days| => Section(days[j], grouped[days[j]]));
    SortedBucketsAreDayGrouping(data, dayKey, keys, days, sections);
  }

  /** `loadData`: group whatever `getTransactions` returns. */
  method LoadData(store: Store.TransactionStore, fault: bool, dayKey: string -> string) returns (sections: seq<Section>)
    ensures IsDayGrouping(store.List(fault), dayKey, sections)
    ensures !store.Readable(fault) ==> sections == []
  {
    var data := store.List(fault);
    sections := GroupByDay(data, dayKey);
    if !store.Readable(fault) {
      NoDaysNoSections(dayKey, sections);
    }
  }

  /** Grouping the empty list gives no sections. */
  lemma NoDaysNoSections(dayKey: string -> string, sections: seq<Section>)
    requires IsDayGrouping([], dayKey, sections)
    ensures sections == []
  {
    assert DayKeys([], dayKey) == {};
  }
}
