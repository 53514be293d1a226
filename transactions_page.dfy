/**
 * The state of the transaction log page: the loaded records, the search term, the network
 * filter and the two-field sort selection, with the column-header click handler
 * (`handleSortChange`) and the rows and network options the page derives from that state.
 */
module TransactionsPage {
  import opened TransactionLog

  /** The sort column and its direction. */
  datatype SortSelection = SortSelection(key: SortKey, direction: SortDirection)

  /** The selection the page opens with: newest first. */
  const InitialSelection: SortSelection := SortSelection(Timestamp, Desc)

  function Flip(direction: SortDirection): (r: SortDirection)
    ensures r != direction
  {
    if direction == Asc then Desc else Asc
  }

  /** Clicking the header of column `key`: the current column flips its direction, another
      column becomes current in ascending order. */
  function SortChange(selection: SortSelection, key: SortKey): (r: SortSelection)
    ensures r.key == key
    ensures selection.key == key ==> r.direction != selection.direction
    ensures selection.key != key ==> r.direction == Asc
  {
    if selection.key == key then SortSelection(key, Flip(selection.direction))
    else SortSelection(key, Asc)
  }

  /** Clicking the current column twice restores the selection. */
  lemma SameColumnTwiceRestores(selection: SortSelection)
    ensures SortChange(SortChange(selection, selection.key), selection.key) == selection
  {
  }

  /** Clicking another column and then the same one again gives that column in
      descending order, whatever the selection was. */
  lemma NewColumnTwiceDescends(selection: SortSelection, key: SortKey)
    requires selection.key != key
    ensures SortChange(selection, key) == SortSelection(key, Asc)
    ensures SortChange(SortChange(selection, key), key) == SortSelection(key, Desc)
  {
  }

  /** Every selection is reached from the initial one in at most two clicks. */
  lemma EverySelectionReachable(target: SortSelection)
    ensures var once := SortChange(InitialSelection, target.key);
            once == target || SortChange(once, target.key) == target
  {
  }

  /** The page's state, one field per piece of component state. */
  class TransactionsView {
    var transactions: seq<Transaction>
    var searchTerm: string
    var sortKey: SortKey
    var sortDirection: SortDirection
    var networkFilter: string

    /** The page as first rendered: no records yet, no search, every network,
        newest first. */
    constructor ()
      ensures transactions == [] && searchTerm == "" && networkFilter == AllNetworks
      ensures Selection() == InitialSelection
    {
      transactions := [];
      searchTerm := "";
      sortKey := Timestamp;
      sortDirection := Desc;
      networkFilter := AllNetworks;
    }

    function Selection(): SortSelection
      reads this
    {
      SortSelection(sortKey, sortDirection)
    }

    /** `filteredAndSortedTransactions`: the rows the table shows. They are exactly the
        loaded records that pass the search and the network filter, sorted under the
        current selection when every record has a sort value, with records of equal sort
        value in the order they were loaded. */
    function Rows(): (r: seq<Transaction>)
      reads this
      ensures r == Query(transactions, searchTerm, networkFilter, sortKey, sortDirection)
      ensures forall x :: multiset(r)[x] == if Passes(x, searchTerm, networkFilter) then multiset(transactions)[x] else 0
      ensures forall x :: x in r ==> x in transactions && Passes(x, searchTerm, networkFilter)
      ensures HasSortValues(ByKey(sortKey), transactions) ==> Sorted(ByKey(sortKey), sortDirection, r)
      ensures HasSortValues(ByKey(sortKey), transactions) ==>
                forall v :: WithValue(ByKey(sortKey), v, r)
                         == FilterTransactions(WithValue(ByKey(sortKey), v, transactions), searchTerm, networkFilter)
    {
      QueryKeepsTiedOrder(transactions, searchTerm, networkFilter, sortKey, sortDirection);
      Query(transactions, searchTerm, networkFilter, sortKey, sortDirection)
    }

    /** The options of the network filter besides "all": each network of the loaded
        records once, in the order of first appearance. */
    function NetworkOptions(): (r: seq<string>)
      reads this
      ensures r == UniqueNetworks(transactions)
      ensures forall n :: n in r <==> exists tx :: tx in transactions && tx.network == n
      ensures forall i, j :: 0 <= i < j < |r| ==> r[i] != r[j]
      ensures InFirstOccurrenceOrder(Networks(transactions), r)
    {
      UniqueNetworksInFirstAppearanceOrder(transactions);
      UniqueNetworks(transactions)
    }

    /** The records have arrived from the API. */
    method Load(txs: seq<Transaction>)
      modifies this
      ensures transactions == txs
      ensures searchTerm == old(searchTerm) && networkFilter == old(networkFilter)
      ensures Selection() == old(Selection())
    {
      transactions := txs;
    }

    /** The search box changed. */
    method SetSearchTerm(term: string)
      modifies this
      ensures searchTerm == term
      ensures transactions == old(transactions) && networkFilter == old(networkFilter)
      ensures Selection() == old(Selection())
    {
      searchTerm := term;
    }

    /** The network filter changed. */
    method SetNetworkFilter(filter: string)
      modifies this
      ensures networkFilter == filter
      ensures transactions == old(transactions) && searchTerm == old(searchTerm)
      ensures Selection() == old(Selection())
    {
      networkFilter := filter;
    }

    /** `handleSortChange`: moves the selection by one click on column `key`; the records,
        the search and the filter stay as they are, so the same rows are shown, reordered. */
    method HandleSortChange(key: SortKey)
      modifies this
      ensures Selection() == SortChange(old(Selection()), key)
      ensures transactions == old(transactions) && searchTerm == old(searchTerm)
      ensures networkFilter == old(networkFilter)
      ensures multiset(Rows()) == multiset(old(Rows()))
    {
      if sortKey == key {
        sortDirection := if sortDirection == Asc then Desc else Asc;
      } else {
        sortKey := key;
        sortDirection := Asc;
      }
      SortSelectionOnlyReorders(transactions, searchTerm, networkFilter,
                                old(sortKey), old(sortDirection), sortKey, sortDirection);
    }
  }
}
