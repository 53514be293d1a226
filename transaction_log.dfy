/**
 * The transaction log's query: the records that match a search term and a
 * network filter, sorted by timestamp, fee or confirmation time in either
 * direction (`filteredAndSortedTransactions`), the list of networks offered
 * by the filter (`uniqueNetworks`), and the shortened id shown in the table.
 */
module TransactionLog {
  import opened Wrappers
  import Text
  import JsNumbers
  import Timestamps

  /** One row of the log. Every field is text, as the records arrive from the API. */
  datatype Transaction = Transaction(
    id: string,
    merchantId: string,
    network: string,
    fee: string,
    confirmationTime: string,
    decisionMethod: string,
    timestamp: string,
    amount: string,
    status: string)

  datatype SortKey = Timestamp | Fee | ConfirmationTime

  datatype SortDirection = Asc | Desc

  /** The network filter's sentinel for "every network". */
  const AllNetworks: string := "all"

  // ---------------------------------------------------------------------------
  // Filtering

  /** The search term, lower-cased, occurs in the lower-cased id, network or merchant id. */
  predicate MatchesSearch(tx: Transaction, term: string): (b: bool)
    ensures b <==> || Text.Occurs(Text.Lower(tx.id), Text.Lower(term))
                   || Text.Occurs(Text.Lower(tx.network), Text.Lower(term))
                   || Text.Occurs(Text.Lower(tx.merchantId), Text.Lower(term))
  {
    Text.IncludesIffOccurs(Text.Lower(tx.id), Text.Lower(term));
    Text.IncludesIffOccurs(Text.Lower(tx.network), Text.Lower(term));
    Text.IncludesIffOccurs(Text.Lower(tx.merchantId), Text.Lower(term));
    var t := Text.Lower(term);
    || Text.Includes(Text.Lower(tx.id), t)
    || Text.Includes(Text.Lower(tx.network), t)
    || Text.Includes(Text.Lower(tx.merchantId), t)
  }

  /** The filter is the sentinel or names the record's network exactly (case-sensitively). */
  predicate MatchesNetwork(tx: Transaction, networkFilter: string): (b: bool)
    ensures networkFilter == AllNetworks ==> b
    ensures networkFilter != AllNetworks ==> (b <==> tx.network == networkFilter)
  {
    networkFilter == AllNetworks || tx.network == networkFilter
  }

  /** A record is shown when it matches both the search and the network filter: with the
      filter at "all" only the search decides, and with an empty search only the filter. */
  predicate Passes(tx: Transaction, term: string, networkFilter: string): (b: bool)
    ensures networkFilter == AllNetworks ==> (b <==> MatchesSearch(tx, term))
    ensures term == "" ==> (b <==> MatchesNetwork(tx, networkFilter))
  {
    Text.IncludesEmpty(Text.Lower(tx.id));
    MatchesSearch(tx, term) && MatchesNetwork(tx, networkFilter)
  }

  /** The `.filter(...)` stage: the records that pass, in their original order. Each record
      occurs in the result as often as in the input if it passes, and not at all otherwise. */
  function FilterTransactions(txs: seq<Transaction>, term: string, networkFilter: string): (r: seq<Transaction>)
    ensures |r| <= |txs|
    ensures forall x :: multiset(r)[x] == if Passes(x, term, networkFilter) then multiset(txs)[x] else 0
  {
    if txs == [] then []
    else
      assert txs == [txs[0]] + txs[1..];
      (if Passes(txs[0], term, networkFilter) then [txs[0]] else []) + FilterTransactions(txs[1..], term, networkFilter)
  }

  /** `.filter` works record by record, front to back: filtering a concatenation is the
      concatenation of the filtered parts. With `FilterOne`, this says that the passing
      records keep their order. */
  lemma {:induction false} FilterAppend(a: seq<Transaction>, b: seq<Transaction>, term: string, networkFilter: string)
    ensures FilterTransactions(a + b, term, networkFilter)
         == FilterTransactions(a, term, networkFilter) + FilterTransactions(b, term, networkFilter)
    decreases |a|
  {
    if a == [] {
      assert a + b == b;
    } else {
      assert (a + b)[0] == a[0] && (a + b)[1..] == a[1..] + b;
      FilterAppend(a[1..], b, term, networkFilter);
      var h := if Passes(a[0], term, networkFilter) then [a[0]] else [];
      calc {
        FilterTransactions(a + b, term, networkFilter);
        h + FilterTransactions(a[1..] + b, term, networkFilter);
        h + (FilterTransactions(a[1..], term, networkFilter) + FilterTransactions(b, term, networkFilter));
        (h + FilterTransactions(a[1..], term, networkFilter)) + FilterTransactions(b, term, networkFilter);
      }
    }
  }

  /** One record is kept exactly when it passes. */
  lemma FilterOne(x: Transaction, term: string, networkFilter: string)
    ensures FilterTransactions([x], term, networkFilter) == if Passes(x, term, networkFilter) then [x] else []
  {
    assert [x][1..] == [];
  }

  // ---------------------------------------------------------------------------
  // Sort keys and the comparator

  /** The number a record is sorted by: `getTime()` of its timestamp, `parseFloat` of the
      first token of its fee, or `parseInt` of the first token of its confirmation time.
      `None` stands for `NaN`. */
  function SortValue(key: SortKey, tx: Transaction): (r: Option<real>)
    ensures key != Fee && r.Some? ==> r.value == r.value.Floor as real
    ensures key == Timestamp && r.Some? ==> Timestamps.HasTimestampShape(tx.timestamp)
  {
    match key
    case Timestamp =>
      (match Timestamps.TimestampMillis(tx.timestamp)
       case None => None
       case Some(ms) => Some(ms as real))
    case Fee => JsNumbers.ParseFloat(Text.FirstToken(tx.fee))
    case ConfirmationTime =>
      (match JsNumbers.ParseInt(Text.FirstToken(tx.confirmationTime))
       case None => None
       case Some(n) => Some(n as real))
  }

  /** The sort values of the records under one key; the comparator and the sort below
      are stated for any such function and used with `ByKey`. */
  type SortValues = Transaction -> Option<real>

  function ByKey(key: SortKey): (f: SortValues)
    ensures forall tx :: f(tx) == SortValue(key, tx)
  {
    tx => SortValue(key, tx)
  }

  /** The comparator handed to `.sort`: the difference of the two sort values, negated for
      `desc`. A `NaN` difference is read as 0, as `Array.prototype.sort` reads it. */
  function Compare(valueOf: SortValues, direction: SortDirection, a: Transaction, b: Transaction): (c: real)
    ensures valueOf(a).Some? && valueOf(b).Some? ==>
              var va, vb := valueOf(a).value, valueOf(b).value;
              (c < 0.0 <==> (if direction == Asc then va < vb else vb < va))
              && (c == 0.0 <==> va == vb)
    ensures valueOf(a).None? || valueOf(b).None? ==> c == 0.0
  {
    var comparison :=
      match (valueOf(a), valueOf(b))
      case (Some(va), Some(vb)) => va - vb
      case _ => 0.0;
    if direction == Asc then comparison else -comparison
  }

  /** The fee and confirmation-time keys read only the text before the first space, so
      the unit after it plays no part. */
  lemma SortValueIgnoresUnit(tx: Transaction, tok: string, unit: string)
    requires ' ' !in tok
    ensures tx.fee == tok + " " + unit ==> SortValue(Fee, tx) == JsNumbers.ParseFloat(tok)
    ensures tx.confirmationTime == tok + " " + unit ==>
              SortValue(ConfirmationTime, tx) == match JsNumbers.ParseInt(tok)
                                                  case None => None
                                                  case Some(n) => Some(n as real)
  {
    Text.FirstTokenIgnoresUnit(tok, unit);
  }

  /** Every record has a sort value (no `NaN`) under `key`. */
  predicate HasSortValues(valueOf: SortValues, s: seq<Transaction>) {
    forall x :: x in s ==> valueOf(x).Some?
  }

  /** No record is placed after one that the comparator says should follow it. */
  predicate Sorted(valueOf: SortValues, direction: SortDirection, s: seq<Transaction>) {
    forall i, j :: 0 <= i < j < |s| ==> Compare(valueOf, direction, s[i], s[j]) <= 0.0
  }

  // ---------------------------------------------------------------------------
  // Sorting: a stable insertion sort over the comparator

  /** `x` placed before the first element the comparator puts after it, so after every
      element that compares equal to it. */
  function Insert(valueOf: SortValues, direction: SortDirection, x: Transaction, s: seq<Transaction>): (r: seq<Transaction>)
    ensures multiset(r) == multiset(s) + multiset{x}
  {
    if s == [] then [x]
    else if Compare(valueOf, direction, x, s[0]) < 0.0 then [x] + s
    else
      assert s == [s[0]] + s[1..];
      [s[0]] + Insert(valueOf, direction, x, s[1..])
  }

  /** The `.sort(...)` stage. The result is a permutation of the input. */
  function SortBy(valueOf: SortValues, direction: SortDirection, s: seq<Transaction>): (r: seq<Transaction>)
    ensures multiset(r) == multiset(s)
  {
    if s == [] then []
    else
      assert s == s[..|s| - 1] + [s[|s| - 1]];
      Insert(valueOf, direction, s[|s| - 1], SortBy(valueOf, direction, s[..|s| - 1]))
  }

  /** The signed sort value: the key under `asc`, its negation under `desc`. With sort values
      present, the comparator is the difference of signed values. */
  function Directed(valueOf: SortValues, direction: SortDirection, tx: Transaction): real
    requires valueOf(tx).Some?
  {
    if direction == Asc then valueOf(tx).value else -valueOf(tx).value
  }

  lemma CompareIsDirectedDifference(valueOf: SortValues, direction: SortDirection, a: Transaction, b: Transaction)
    requires valueOf(a).Some? && valueOf(b).Some?
    ensures Compare(valueOf, direction, a, b) == Directed(valueOf, direction, a) - Directed(valueOf, direction, b)
  {
  }

  /** Signed sort values that increase from each record to the next increase along the
      whole sequence. */
  lemma {:induction false} ChainIncreasing(valueOf: SortValues, direction: SortDirection, s: seq<Transaction>)
    requires HasSortValues(valueOf, s)
    requires forall i :: 0 <= i < |s| - 1 ==> Directed(valueOf, direction, s[i]) < Directed(valueOf, direction, s[i + 1])
    ensures forall i, j :: 0 <= i < j < |s| ==> Directed(valueOf, direction, s[i]) < Directed(valueOf, direction, s[j])
  {
    if |s| > 1 {
      var tail := s[1..];
      assert HasSortValues(valueOf, tail) by {
        forall z | z in tail ensures z in s { }
      }
      forall i | 0 <= i < |tail| - 1
        ensures Directed(valueOf, direction, tail[i]) < Directed(valueOf, direction, tail[i + 1])
      {
        assert tail[i] == s[i + 1] && tail[i + 1] == s[i + 2];
      }
      ChainIncreasing(valueOf, direction, tail);
      forall i, j | 0 <= i < j < |s| ensures Directed(valueOf, direction, s[i]) < Directed(valueOf, direction, s[j]) {
        if i > 0 {
          assert s[i] == tail[i - 1] && s[j] == tail[j - 1];
        } else if j > 1 {
          assert s[1] == tail[0] && s[j] == tail[j - 1];
        }
      }
    }
  }

  /** Records whose signed sort values strictly increase are sorted. */
  lemma StrictlyIncreasingSorted(valueOf: SortValues, direction: SortDirection, s: seq<Transaction>)
    requires HasSortValues(valueOf, s)
    requires forall i, j :: 0 <= i < j < |s| ==> Directed(valueOf, direction, s[i]) < Directed(valueOf, direction, s[j])
    ensures Sorted(valueOf, direction, s)
  {
    forall i, j | 0 <= i < j < |s| ensures Compare(valueOf, direction, s[i], s[j]) <= 0.0 {
      CompareIsDirectedDifference(valueOf, direction, s[i], s[j]);
    }
  }

  /** Records whose signed sort values strictly increase share no sort value. */
  lemma StrictlyIncreasingDistinct(valueOf: SortValues, direction: SortDirection, s: seq<Transaction>)
    requires HasSortValues(valueOf, s)
    requires forall i, j :: 0 <= i < j < |s| ==> Directed(valueOf, direction, s[i]) < Directed(valueOf, direction, s[j])
    ensures forall x, y :: x in s && y in s && valueOf(x) == valueOf(y) ==> x == y
  {
    forall x, y | x in s && y in s && valueOf(x) == valueOf(y) ensures x == y {
      var i :| 0 <= i < |s| && s[i] == x;
      var j :| 0 <= j < |s| && s[j] == y;
      assert Directed(valueOf, direction, x) == Directed(valueOf, direction, y);
    }
  }

  /** Dropping the first record keeps a sequence sorted and its sort values present. */
  lemma SortedTail(valueOf: SortValues, direction: SortDirection, s: seq<Transaction>)
    requires Sorted(valueOf, direction, s) && s != []
    ensures Sorted(valueOf, direction, s[1..])
    ensures HasSortValues(valueOf, s) ==> HasSortValues(valueOf, s[1..])
  {
    var tail := s[1..];
    forall i, j | 0 <= i < j < |tail| ensures Compare(valueOf, direction, tail[i], tail[j]) <= 0.0 {
      assert tail[i] == s[i + 1] && tail[j] == s[j + 1];
    }
    forall z | z in tail ensures z in s { }
  }

  /** A record that compares at most 0 with every record of a sorted sequence can lead it. */
  lemma PrependSorted(valueOf: SortValues, direction: SortDirection, y: Transaction, t: seq<Transaction>)
    requires Sorted(valueOf, direction, t)
    requires forall z :: z in t ==> Compare(valueOf, direction, y, z) <= 0.0
    ensures Sorted(valueOf, direction, [y] + t)
  {
    var r := [y] + t;
    forall i, j | 0 <= i < j < |r| ensures Compare(valueOf, direction, r[i], r[j]) <= 0.0 {
      if i == 0 {
        assert r[j] in t;
      } else {
        assert r[i] == t[i - 1] && r[j] == t[j - 1];
      }
    }
  }

  /** A record that compares at most 0 with the head of a sorted sequence compares at most
      0 with all of it: with sort values present the comparator is transitive. */
  lemma LeadsSorted(valueOf: SortValues, direction: SortDirection, y: Transaction, t: seq<Transaction>)
    requires HasSortValues(valueOf, t) && valueOf(y).Some?
    requires Sorted(valueOf, direction, t) && t != []
    requires Compare(valueOf, direction, y, t[0]) <= 0.0
    ensures forall z :: z in t ==> Compare(valueOf, direction, y, z) <= 0.0
  {
    forall z | z in t ensures Compare(valueOf, direction, y, z) <= 0.0 {
      var k :| 0 <= k < |t| && t[k] == z;
      CompareIsDirectedDifference(valueOf, direction, y, t[0]);
      CompareIsDirectedDifference(valueOf, direction, y, z);
      if k > 0 {
        CompareIsDirectedDifference(valueOf, direction, t[0], z);
      }
    }
  }

  /** Inserting into a sorted sequence keeps it sorted. */
  lemma {:induction false} InsertSorted(valueOf: SortValues, direction: SortDirection, x: Transaction, s: seq<Transaction>)
    requires HasSortValues(valueOf, s) && valueOf(x).Some?
    requires Sorted(valueOf, direction, s)
    ensures Sorted(valueOf, direction, Insert(valueOf, direction, x, s))
  {
    if s != [] {
      if Compare(valueOf, direction, x, s[0]) < 0.0 {
        LeadsSorted(valueOf, direction, x, s);
        PrependSorted(valueOf, direction, x, s);
      } else {
        var tail := s[1..];
        SortedTail(valueOf, direction, s);
        InsertSorted(valueOf, direction, x, tail);
        var rest := Insert(valueOf, direction, x, tail);
        forall z | z in rest ensures Compare(valueOf, direction, s[0], z) <= 0.0 {
          assert z in multiset(rest);
          if z == x {
            CompareIsDirectedDifference(valueOf, direction, x, s[0]);
            CompareIsDirectedDifference(valueOf, direction, s[0], x);
          } else {
            assert z in multiset(tail);
            var k :| 0 <= k < |tail| && tail[k] == z;
            assert s[k + 1] == z;
          }
        }
        PrependSorted(valueOf, direction, s[0], rest);
      }
    }
  }

  /** With every sort value present, the sort's result is sorted by the comparator. */
  lemma {:induction false} SortBySorted(valueOf: SortValues, direction: SortDirection, s: seq<Transaction>)
    requires HasSortValues(valueOf, s)
    ensures Sorted(valueOf, direction, SortBy(valueOf, direction, s))
  {
    if s != [] {
      var init := s[..|s| - 1];
      assert HasSortValues(valueOf, init) by {
        forall x | x in init ensures x in s { }
      }
      SortBySorted(valueOf, direction, init);
      var sorted := SortBy(valueOf, direction, init);
      assert HasSortValues(valueOf, sorted) by {
        forall x | x in sorted ensures x in init {
          assert x in multiset(sorted);
        }
      }
      InsertSorted(valueOf, direction, s[|s| - 1], sorted);
    }
  }

  // ---------------------------------------------------------------------------
  // The query

  /** `filteredAndSortedTransactions`: exactly the records that pass the search and network
      tests, each as often as in the log, and (when every sort value is present) sorted by
      the comparator for the chosen key and direction. */
  function Query(txs: seq<Transaction>, term: string, networkFilter: string,
                 key: SortKey, direction: SortDirection): (r: seq<Transaction>)
    ensures forall x :: multiset(r)[x] == if Passes(x, term, networkFilter) then multiset(txs)[x] else 0
    ensures |r| <= |txs|
    ensures forall x :: x in r ==> x in txs && Passes(x, term, networkFilter)
    ensures HasSortValues(ByKey(key), txs) ==> Sorted(ByKey(key), direction, r)
  {
    var filtered := FilterTransactions(txs, term, networkFilter);
    var r := SortBy(ByKey(key), direction, filtered);
    assert |r| == |multiset(r)| == |multiset(filtered)| == |filtered|;
    assert forall x :: x in r ==> x in multiset(r);
    SortFilteredSorted(txs, term, networkFilter, key, direction);
    r
  }

  lemma SortFilteredSorted(txs: seq<Transaction>, term: string, networkFilter: string,
                           key: SortKey, direction: SortDirection)
    ensures HasSortValues(ByKey(key), txs) ==>
              Sorted(ByKey(key), direction, SortBy(ByKey(key), direction, FilterTransactions(txs, term, networkFilter)))
  {
    var filtered := FilterTransactions(txs, term, networkFilter);
    if HasSortValues(ByKey(key), txs) {
      assert HasSortValues(ByKey(key), filtered) by {
        forall x | x in filtered ensures x in txs {
          assert x in multiset(filtered);
        }
      }
      SortBySorted(ByKey(key), direction, filtered);
    }
  }

  /** The sort selection decides only the order of the rows shown, never which rows. */
  lemma SortSelectionOnlyReorders(txs: seq<Transaction>, term: string, networkFilter: string,
                                  key1: SortKey, direction1: SortDirection,
                                  key2: SortKey, direction2: SortDirection)
    ensures multiset(Query(txs, term, networkFilter, key1, direction1))
         == multiset(Query(txs, term, networkFilter, key2, direction2))
  {
    var r1 := Query(txs, term, networkFilter, key1, direction1);
    var r2 := Query(txs, term, networkFilter, key2, direction2);
    assert forall x :: multiset(r1)[x] == multiset(r2)[x];
  }

  /** Every record passes an empty search with the filter at "all": every string includes
      the empty string. */
  lemma EmptySearchPasses(tx: Transaction)
    ensures Passes(tx, "", AllNetworks)
  {
    Text.IncludesEmpty(Text.Lower(tx.id));
  }

  /** An empty search term with the filter at "all" keeps every record, in order. */
  lemma {:induction false} EmptySearchKeepsAll(txs: seq<Transaction>)
    ensures FilterTransactions(txs, "", AllNetworks) == txs
  {
    if txs != [] {
      EmptySearchPasses(txs[0]);
      EmptySearchKeepsAll(txs[1..]);
    }
  }

  /** ... so then the table shows every record, whatever the sort selection. */
  lemma EmptySearchShowsAll(txs: seq<Transaction>, key: SortKey, direction: SortDirection)
    ensures multiset(Query(txs, "", AllNetworks, key, direction)) == multiset(txs)
  {
    var r := Query(txs, "", AllNetworks, key, direction);
    forall x ensures multiset(r)[x] == multiset(txs)[x] {
      EmptySearchPasses(x);
    }
  }

  /** Two sorted sequences with the same records start with records of equal sort value. */
  lemma SortedHeadsTie(valueOf: SortValues, direction: SortDirection, a: seq<Transaction>, b: seq<Transaction>)
    requires multiset(a) == multiset(b) && a != []
    requires HasSortValues(valueOf, a)
    requires Sorted(valueOf, direction, a) && Sorted(valueOf, direction, b)
    ensures b != [] && valueOf(a[0]) == valueOf(b[0])
  {
    assert a[0] in multiset(b) && b[0] in multiset(a);
    var i :| 0 <= i < |b| && b[i] == a[0];
    var j :| 0 <= j < |a| && a[j] == b[0];
    CompareIsDirectedDifference(valueOf, direction, a[0], a[j]);
    CompareIsDirectedDifference(valueOf, direction, b[0], b[i]);
  }

  /** Two sorted sequences with the same records, where records with equal sort values are
      equal, are the same sequence: sorting determines the order completely. */
  lemma {:induction false} SortedUnique(valueOf: SortValues, direction: SortDirection, a: seq<Transaction>, b: seq<Transaction>)
    requires multiset(a) == multiset(b)
    requires HasSortValues(valueOf, a)
    requires forall x, y :: x in a && y in a && valueOf(x) == valueOf(y) ==> x == y
    requires Sorted(valueOf, direction, a) && Sorted(valueOf, direction, b)
    ensures a == b
    decreases |a|
  {
    assert |a| == |multiset(a)| == |multiset(b)| == |b|;
    if a != [] {
      SortedHeadsTie(valueOf, direction, a, b);
      assert b[0] in multiset(a);
      assert a[0] == b[0];
      assert a == [a[0]] + a[1..] && b == [b[0]] + b[1..];
      assert multiset(a[1..]) == multiset(a) - multiset{a[0]};
      assert multiset(b[1..]) == multiset(b) - multiset{b[0]};
      SortedTail(valueOf, direction, a);
      SortedTail(valueOf, direction, b);
      forall x | x in a[1..] ensures x in a { }
      SortedUnique(valueOf, direction, a[1..], b[1..]);
    }
  }

  function Reverse(s: seq<Transaction>): (r: seq<Transaction>)
    ensures |r| == |s|
    ensures forall i :: 0 <= i < |s| ==> r[i] == s[|s| - 1 - i]
  {
    if s == [] then [] else Reverse(s[1..]) + [s[0]]
  }

  lemma {:induction false} ReverseMultiset(s: seq<Transaction>)
    ensures multiset(Reverse(s)) == multiset(s)
  {
    if s != [] {
      ReverseMultiset(s[1..]);
      assert s == [s[0]] + s[1..];
    }
  }

  /** The `desc` comparator is the `asc` comparator with its arguments swapped. */
  lemma DescSwapsAsc(valueOf: SortValues, a: Transaction, b: Transaction)
    ensures Compare(valueOf, Desc, a, b) == Compare(valueOf, Asc, b, a)
  {
  }

  /** Reversing a sequence sorted for `asc` gives one sorted for `desc`. */
  lemma ReverseSortedAsc(valueOf: SortValues, s: seq<Transaction>)
    requires Sorted(valueOf, Asc, s)
    ensures Sorted(valueOf, Desc, Reverse(s))
  {
    var rev := Reverse(s);
    forall i, j | 0 <= i < j < |rev| ensures Compare(valueOf, Desc, rev[i], rev[j]) <= 0.0 {
      assert rev[i] == s[|s| - 1 - i] && rev[j] == s[|s| - 1 - j];
      DescSwapsAsc(valueOf, rev[i], rev[j]);
    }
  }

  /** `desc` is `asc` reversed when distinct records have distinct sort values. */
  lemma DescIsReversedAsc(valueOf: SortValues, s: seq<Transaction>)
    requires HasSortValues(valueOf, s)
    requires forall x, y :: x in s && y in s && valueOf(x) == valueOf(y) ==> x == y
    ensures SortBy(valueOf, Desc, s) == Reverse(SortBy(valueOf, Asc, s))
  {
    var asc := SortBy(valueOf, Asc, s);
    var desc := SortBy(valueOf, Desc, s);
    SortBySorted(valueOf, Asc, s);
    SortBySorted(valueOf, Desc, s);
    ReverseSortedAsc(valueOf, asc);
    ReverseMultiset(asc);
    forall x | x in desc ensures x in s {
      assert x in multiset(desc);
    }
    SortedUnique(valueOf, Desc, desc, Reverse(asc));
  }

  /** Records with equal sort values compare as 0 in both directions; records without a
      sort value compare as 0 with everything. */
  lemma EqualKeysTie(valueOf: SortValues, a: Transaction, b: Transaction)
    requires valueOf(a) == valueOf(b) || valueOf(a).None? || valueOf(b).None?
    ensures Compare(valueOf, Asc, a, b) == 0.0 && Compare(valueOf, Desc, a, b) == 0.0
  {
  }

  /** Of two timestamped records in sorted order, under `asc` the second is not earlier
      than the first, and under `desc` not later. */
  lemma TimestampPairChronological(direction: SortDirection, x: Transaction, y: Transaction)
    requires Timestamps.ParseDateTime(x.timestamp).Some? && Timestamps.ParseDateTime(y.timestamp).Some?
    requires Compare(ByKey(Timestamp), direction, x, y) <= 0.0
    ensures var a := Timestamps.ParseDateTime(x.timestamp).value;
            var b := Timestamps.ParseDateTime(y.timestamp).value;
            if direction == Asc then !Timestamps.Before(b, a) else !Timestamps.Before(a, b)
  {
    var a := Timestamps.ParseDateTime(x.timestamp).value;
    var b := Timestamps.ParseDateTime(y.timestamp).value;
    assert SortValue(Timestamp, x) == Some(Timestamps.EpochMillis(a) as real);
    assert SortValue(Timestamp, y) == Some(Timestamps.EpochMillis(b) as real);
    if direction == Asc && Timestamps.Before(b, a) {
      Timestamps.EpochMillisIncreasing(b, a);
    }
    if direction == Desc && Timestamps.Before(a, b) {
      Timestamps.EpochMillisIncreasing(a, b);
    }
  }

  /** Sorting by timestamp is chronological: under `asc` no record is followed by an earlier
      one, and under `desc` no record is followed by a later one. */
  lemma TimestampOrderIsChronological(direction: SortDirection, s: seq<Transaction>)
    requires forall i :: 0 <= i < |s| ==> Timestamps.ParseDateTime(s[i].timestamp).Some?
    requires Sorted(ByKey(Timestamp), direction, s)
    ensures forall i, j :: 0 <= i < j < |s| ==>
              var a := Timestamps.ParseDateTime(s[i].timestamp).value;
              var b := Timestamps.ParseDateTime(s[j].timestamp).value;
              if direction == Asc then !Timestamps.Before(b, a) else !Timestamps.Before(a, b)
  {
    forall i, j | 0 <= i < j < |s|
      ensures var a := Timestamps.ParseDateTime(s[i].timestamp).value;
              var b := Timestamps.ParseDateTime(s[j].timestamp).value;
              if direction == Asc then !Timestamps.Before(b, a) else !Timestamps.Before(a, b)
    {
      TimestampPairChronological(direction, s[i], s[j]);
    }
  }

  /** All of `s` ties with `x` under the comparator. */
  predicate AllTie(valueOf: SortValues, direction: SortDirection, x: Transaction, s: seq<Transaction>) {
    forall z :: z in s ==> Compare(valueOf, direction, x, z) == 0.0
  }

  /** A record that ties with every element is inserted after all of them. */
  lemma {:induction false} InsertAllTie(valueOf: SortValues, direction: SortDirection, x: Transaction, s: seq<Transaction>)
    requires AllTie(valueOf, direction, x, s)
    ensures Insert(valueOf, direction, x, s) == s + [x]
  {
    if s != [] {
      var tail := s[1..];
      assert Compare(valueOf, direction, x, s[0]) == 0.0 by { assert s[0] in s; }
      assert AllTie(valueOf, direction, x, tail) by {
        forall z | z in tail ensures z in s { }
      }
      InsertAllTie(valueOf, direction, x, tail);
      assert Insert(valueOf, direction, x, s) == [s[0]] + (tail + [x]);
      assert [s[0]] + (tail + [x]) == s + [x];
    }
  }

  /** The sort is stable: when every pair of records ties (equal sort values, or `NaN`s),
      it keeps the order the records came in. */
  lemma {:induction false} SortAllTiesKeepsOrder(valueOf: SortValues, direction: SortDirection, s: seq<Transaction>)
    requires forall x, y :: x in s && y in s ==> Compare(valueOf, direction, x, y) == 0.0
    ensures SortBy(valueOf, direction, s) == s
  {
    if s != [] {
      var init := s[..|s| - 1];
      var last := s[|s| - 1];
      assert init + [last] == s;
      forall x, y | x in init && y in init ensures Compare(valueOf, direction, x, y) == 0.0 {
        assert x in s && y in s;
      }
      SortAllTiesKeepsOrder(valueOf, direction, init);
      forall z | z in init ensures Compare(valueOf, direction, last, z) == 0.0 {
        assert z in s;
      }
      InsertAllTie(valueOf, direction, last, init);
    }
  }

  /** The records of `s` whose sort value is `v`, in their order in `s`. */
  function WithValue(valueOf: SortValues, v: real, s: seq<Transaction>): seq<Transaction> {
    if s == [] then []
    else
      (if valueOf(s[0]) == Some(v) then [s[0]] else []) + WithValue(valueOf, v, s[1..])
  }

  lemma {:induction false} WithValueAppend(valueOf: SortValues, v: real, a: seq<Transaction>, b: seq<Transaction>)
    ensures WithValue(valueOf, v, a + b) == WithValue(valueOf, v, a) + WithValue(valueOf, v, b)
    decreases |a|
  {
    if a == [] {
      assert a + b == b;
    } else {
      assert (a + b)[0] == a[0] && (a + b)[1..] == a[1..] + b;
      WithValueAppend(valueOf, v, a[1..], b);
    }
  }

  lemma {:induction false} WithValueAbsent(valueOf: SortValues, v: real, s: seq<Transaction>)
    requires forall x :: x in s ==> valueOf(x) != Some(v)
    ensures WithValue(valueOf, v, s) == []
    decreases |s|
  {
    if s != [] {
      assert s[0] in s;
      assert forall x :: x in s[1..] ==> x in s;
      WithValueAbsent(valueOf, v, s[1..]);
    }
  }

  /** In a sorted sequence, a record that the comparator puts before the head differs in
      sort value from every element. */
  lemma BeforeHeadDiffers(valueOf: SortValues, direction: SortDirection, x: Transaction, t: seq<Transaction>)
    requires HasSortValues(valueOf, t) && valueOf(x).Some?
    requires Sorted(valueOf, direction, t) && t != []
    requires Compare(valueOf, direction, x, t[0]) < 0.0
    ensures forall z :: z in t ==> valueOf(z) != valueOf(x)
  {
    forall z | z in t ensures valueOf(z) != valueOf(x) {
      var k :| 0 <= k < |t| && t[k] == z;
      assert t[0] in t;
      if k > 0 {
        assert Compare(valueOf, direction, t[0], t[k]) <= 0.0;
      }
    }
  }

  /** Inserting `x` into a sorted sequence puts it after every element with its sort value,
      and moves none of them. */
  lemma {:induction false} InsertStable(valueOf: SortValues, direction: SortDirection, v: real,
                                        x: Transaction, t: seq<Transaction>)
    requires HasSortValues(valueOf, t) && valueOf(x).Some?
    requires Sorted(valueOf, direction, t)
    ensures WithValue(valueOf, v, Insert(valueOf, direction, x, t))
         == WithValue(valueOf, v, t) + WithValue(valueOf, v, [x])
    decreases |t|
  {
    if t == [] {
      assert t + [x] == [x];
    } else if Compare(valueOf, direction, x, t[0]) < 0.0 {
      InsertFrontStable(valueOf, direction, v, x, t);
    } else {
      SortedTail(valueOf, direction, t);
      InsertStable(valueOf, direction, v, x, t[1..]);
      InsertBehindStable(valueOf, direction, v, x, t);
    }
  }

  lemma InsertPastHead(valueOf: SortValues, direction: SortDirection, x: Transaction, t: seq<Transaction>)
    requires t != [] && Compare(valueOf, direction, x, t[0]) >= 0.0
    ensures Insert(valueOf, direction, x, t) == [t[0]] + Insert(valueOf, direction, x, t[1..])
  {
  }

  /** The step of `InsertStable` where `x` goes past the head. */
  lemma InsertBehindStable(valueOf: SortValues, direction: SortDirection, v: real,
                           x: Transaction, t: seq<Transaction>)
    requires t != [] && Compare(valueOf, direction, x, t[0]) >= 0.0
    requires WithValue(valueOf, v, Insert(valueOf, direction, x, t[1..]))
          == WithValue(valueOf, v, t[1..]) + WithValue(valueOf, v, [x])
    ensures WithValue(valueOf, v, Insert(valueOf, direction, x, t))
         == WithValue(valueOf, v, t) + WithValue(valueOf, v, [x])
  {
    var head, tail := [t[0]], t[1..];
    var rest := Insert(valueOf, direction, x, tail);
    InsertPastHead(valueOf, direction, x, t);
    assert t == head + tail;
    WithValueAppend(valueOf, v, head, rest);
    WithValueAppend(valueOf, v, head, tail);
    var h, e, w := WithValue(valueOf, v, head), WithValue(valueOf, v, tail), WithValue(valueOf, v, [x]);
    calc {
      WithValue(valueOf, v, Insert(valueOf, direction, x, t));
      h + WithValue(valueOf, v, rest);
      h + (e + w);
      (h + e) + w;
      WithValue(valueOf, v, t) + w;
    }
  }

  lemma InsertFrontStable(valueOf: SortValues, direction: SortDirection, v: real,
                          x: Transaction, t: seq<Transaction>)
    requires HasSortValues(valueOf, t) && valueOf(x).Some?
    requires Sorted(valueOf, direction, t) && t != []
    requires Compare(valueOf, direction, x, t[0]) < 0.0
    ensures WithValue(valueOf, v, [x] + t) == WithValue(valueOf, v, t) + WithValue(valueOf, v, [x])
  {
    WithValueAppend(valueOf, v, [x], t);
    if valueOf(x) == Some(v) {
      BeforeHeadDiffers(valueOf, direction, x, t);
      WithValueAbsent(valueOf, v, t);
    } else {
      assert [x][1..] == [];
    }
  }

  /** The sort is stable: records with equal sort values keep their input order. (With
      sort values present, the comparator returns 0 exactly for equal values.) */
  lemma {:induction false} SortByStable(valueOf: SortValues, direction: SortDirection, v: real, s: seq<Transaction>)
    requires HasSortValues(valueOf, s)
    ensures WithValue(valueOf, v, SortBy(valueOf, direction, s)) == WithValue(valueOf, v, s)
    decreases |s|
  {
    if s != [] {
      var init, last := s[..|s| - 1], s[|s| - 1];
      assert s == init + [last];
      assert HasSortValues(valueOf, init) by {
        forall z | z in init ensures z in s { }
      }
      SortByStable(valueOf, direction, v, init);
      var sorted := SortBy(valueOf, direction, init);
      SortBySorted(valueOf, direction, init);
      assert HasSortValues(valueOf, sorted) by {
        forall z | z in sorted ensures z in init {
          assert z in multiset(sorted);
        }
      }
      assert last in s;
      InsertStable(valueOf, direction, v, last, sorted);
      WithValueAppend(valueOf, v, init, [last]);
    }
  }

  /** Filtering and picking the records of one sort value commute. */
  lemma {:induction false} FilterWithValue(valueOf: SortValues, v: real, s: seq<Transaction>,
                                           term: string, networkFilter: string)
    ensures WithValue(valueOf, v, FilterTransactions(s, term, networkFilter))
         == FilterTransactions(WithValue(valueOf, v, s), term, networkFilter)
    decreases |s|
  {
    if s != [] {
      var head, tail := [s[0]], s[1..];
      assert s == head + tail;
      FilterAppend(head, tail, term, networkFilter);
      WithValueAppend(valueOf, v, head, tail);
      WithValueAppend(valueOf, v, FilterTransactions(head, term, networkFilter), FilterTransactions(tail, term, networkFilter));
      FilterAppend(WithValue(valueOf, v, head), WithValue(valueOf, v, tail), term, networkFilter);
      FilterWithValueOne(valueOf, v, s[0], term, networkFilter);
      FilterWithValue(valueOf, v, tail, term, networkFilter);
    }
  }

  lemma FilterWithValueOne(valueOf: SortValues, v: real, x: Transaction, term: string, networkFilter: string)
    ensures WithValue(valueOf, v, FilterTransactions([x], term, networkFilter))
         == FilterTransactions(WithValue(valueOf, v, [x]), term, networkFilter)
  {
    assert [x][1..] == [];
    FilterOne(x, term, networkFilter);
  }

  /** The rows shown keep the log's order among records with equal sort values: the rows
      with value `v` are the passing records with value `v`, in the order they were loaded. */
  lemma QueryKeepsTiedOrder(txs: seq<Transaction>, term: string, networkFilter: string,
                            key: SortKey, direction: SortDirection)
    ensures HasSortValues(ByKey(key), txs) ==>
              forall v :: WithValue(ByKey(key), v, Query(txs, term, networkFilter, key, direction))
                       == FilterTransactions(WithValue(ByKey(key), v, txs), term, networkFilter)
  {
    if HasSortValues(ByKey(key), txs) {
      var filtered := FilterTransactions(txs, term, networkFilter);
      assert HasSortValues(ByKey(key), filtered) by {
        forall x | x in filtered ensures x in txs {
          assert x in multiset(filtered);
        }
      }
      forall v ensures WithValue(ByKey(key), v, Query(txs, term, networkFilter, key, direction))
                    == FilterTransactions(WithValue(ByKey(key), v, txs), term, networkFilter) {
        SortByStable(ByKey(key), direction, v, filtered);
        FilterWithValue(ByKey(key), v, txs, term, networkFilter);
      }
    }
  }

  // ---------------------------------------------------------------------------
  // The network list and the displayed id

  /** The distinct elements of `s` in the order of their first occurrence, as
      `Array.from(new Set(s))` yields them. */
  function Distinct(s: seq<string>): (r: seq<string>)
    ensures forall x :: x in r <==> x in s
    ensures forall i, j :: 0 <= i < j < |r| ==> r[i] != r[j]
  {
    if s == [] then []
    else
      var r := Distinct(s[..|s| - 1]);
      assert forall x :: x in s <==> x in s[..|s| - 1] || x == s[|s| - 1];
      if s[|s| - 1] in r then r else r + [s[|s| - 1]]
  }

  /** The index of the first occurrence of `x` in `s`. */
  function FirstIndex(s: seq<string>, x: string): (i: nat)
    requires x in s
    ensures i < |s| && s[i] == x && x !in s[..i]
  {
    if s[0] == x then 0 else 1 + FirstIndex(s[1..], x)
  }

  lemma FirstIndexInPrefix(s: seq<string>, x: string, n: nat)
    requires n <= |s| && x in s[..n]
    ensures FirstIndex(s[..n], x) == FirstIndex(s, x)
  {
    var i := FirstIndex(s[..n], x);
    var k := FirstIndex(s, x);
    assert s[..n][..i] == s[..i];
  }

  /** An element that is new at the end of `s` first occurs there. */
  lemma FirstIndexOfNewLast(s: seq<string>)
    requires s != [] && s[|s| - 1] !in s[..|s| - 1]
    ensures FirstIndex(s, s[|s| - 1]) == |s| - 1
  {
  }

  /** Every element of `r` occurs in `s`, and `r` lists them in the order of their first
      occurrence in `s`. */
  predicate InFirstOccurrenceOrder(s: seq<string>, r: seq<string>) {
    && (forall x :: x in r ==> x in s)
    && forall i, j :: 0 <= i < j < |r| ==> FirstIndex(s, r[i]) < FirstIndex(s, r[j])
  }

  /** Appending to `s` keeps first occurrences where they were. */
  lemma OrderInPrefix(s: seq<string>, r: seq<string>)
    requires s != [] && InFirstOccurrenceOrder(s[..|s| - 1], r)
    ensures InFirstOccurrenceOrder(s, r)
  {
    var init := s[..|s| - 1];
    forall x | x in r ensures x in s {
      var k :| 0 <= k < |init| && init[k] == x;
      assert s[k] == x;
    }
    forall i, j | 0 <= i < j < |r| ensures FirstIndex(s, r[i]) < FirstIndex(s, r[j]) {
      FirstIndexInPrefix(s, r[i], |s| - 1);
      FirstIndexInPrefix(s, r[j], |s| - 1);
    }
  }

  /** An element new at the end of `s` comes after all earlier ones. */
  lemma OrderWithNewLast(s: seq<string>, r: seq<string>)
    requires s != [] && s[|s| - 1] !in s[..|s| - 1]
    requires InFirstOccurrenceOrder(s[..|s| - 1], r)
    ensures InFirstOccurrenceOrder(s, r + [s[|s| - 1]])
  {
    var init := s[..|s| - 1];
    OrderInPrefix(s, r);
    FirstIndexOfNewLast(s);
    var r' := r + [s[|s| - 1]];
    forall i, j | 0 <= i < j < |r'| ensures FirstIndex(s, r'[i]) < FirstIndex(s, r'[j]) {
      assert r'[i] == r[i] && r[i] in init;
      if j == |r| {
        FirstIndexInPrefix(s, r[i], |s| - 1);
      }
    }
  }

  /** `Distinct` lists elements in the order they first occur. */
  lemma {:induction false} DistinctFirstOccurrenceOrder(s: seq<string>)
    ensures InFirstOccurrenceOrder(s, Distinct(s))
  {
    if s != [] {
      var init := s[..|s| - 1];
      DistinctFirstOccurrenceOrder(init);
      if s[|s| - 1] in Distinct(init) {
        OrderInPrefix(s, Distinct(init));
      } else {
        OrderWithNewLast(s, Distinct(init));
      }
    }
  }

  /** `transactions.map((tx) => tx.network)`. */
  function Networks(txs: seq<Transaction>): (r: seq<string>)
    ensures |r| == |txs|
    ensures forall i :: 0 <= i < |txs| ==> r[i] == txs[i].network
  {
    if txs == [] then [] else [txs[0].network] + Networks(txs[1..])
  }

  /** `uniqueNetworks`: each network of the log once, and no other text. */
  function UniqueNetworks(txs: seq<Transaction>): (r: seq<string>)
    ensures forall n :: n in r <==> exists tx :: tx in txs && tx.network == n
    ensures forall i, j :: 0 <= i < j < |r| ==> r[i] != r[j]
  {
    var networks := Networks(txs);
    assert forall n :: n in networks <==> exists tx :: tx in txs && tx.network == n by {
      forall n ensures n in networks <==> exists tx :: tx in txs && tx.network == n {
        if n in networks {
          var i :| 0 <= i < |networks| && networks[i] == n;
          assert txs[i] in txs;
        }
        if exists tx :: tx in txs && tx.network == n {
          var tx :| tx in txs && tx.network == n;
          var i :| 0 <= i < |txs| && txs[i] == tx;
          assert networks[i] == n;
        }
      }
    }
    Distinct(networks)
  }

  /** The networks are listed in the order in which they first appear in the log. */
  lemma UniqueNetworksInFirstAppearanceOrder(txs: seq<Transaction>)
    ensures InFirstOccurrenceOrder(Networks(txs), UniqueNetworks(txs))
  {
    DistinctFirstOccurrenceOrder(Networks(txs));
  }

  /** The id as shown in the table: `id.substring(0, 6)`. */
  function DisplayId(id: string): (r: string)
    ensures r <= id
    ensures |r| == if |id| < 6 then |id| else 6
  {
    if |id| <= 6 then id else id[..6]
  }
}
