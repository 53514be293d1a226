/**
 * The five demo records the API service hands to the transaction log page, and what the
 * log's query does with them.
 */
module MockLog {
  import opened Wrappers
  import opened TransactionLog

  const Tx1: Transaction := Transaction("tx1", "merchant123", "Ethereum Mainnet", "0.0045 ETH",
    "15 seconds", "heuristic", "2023-11-10T12:30:45Z", "1.25 ETH", "completed")
  const Tx2: Transaction := Transaction("tx2", "merchant123", "Polygon", "0.5 MATIC",
    "8 seconds", "hybrid", "2023-11-10T12:15:30Z", "50 MATIC", "completed")
  const Tx3: Transaction := Transaction("tx3", "merchant123", "Optimism", "0.0012 ETH",
    "3 seconds", "hybrid", "2023-11-10T11:45:20Z", "0.75 ETH", "completed")
  const Tx4: Transaction := Transaction("tx4", "merchant123", "Arbitrum", "0.0018 ETH",
    "5 seconds", "heuristic", "2023-11-10T11:20:15Z", "0.5 ETH", "completed")
  const Tx5: Transaction := Transaction("tx5", "merchant123", "Ethereum Mainnet", "0.0065 ETH",
    "18 seconds", "hybrid", "2023-11-10T10:55:40Z", "2.0 ETH", "completed")

  const MockTransactions: seq<Transaction> := [Tx1, Tx2, Tx3, Tx4, Tx5]

  /** A fee written as `I.F <unit>` sorts by the exact decimal I.F. */
  lemma FeeOfFixedPoint(tx: Transaction, ip: string, fp: string, unit: string)
    requires |ip| > 0 && JsNumbers.AllDigitsIn(ip, 10) && JsNumbers.AllDigitsIn(fp, 10)
    requires tx.fee == ip + "." + fp + " " + unit
    ensures SortValue(Fee, tx) == Some(JsNumbers.FixedPointValue(ip, fp))
  {
    var tok := ip + "." + fp;
    assert tx.fee == tok + " " + unit;
    assert ' ' !in tok by {
      assert forall i :: 0 <= i < |tok| ==> tok[i] == '.' || JsNumbers.IsDigitIn(tok[i], 10);
    }
    SortValueIgnoresUnit(tx, tok, unit);
    JsNumbers.ParseFloatFixedPoint(ip, fp, "");
    assert tok + "" == tok;
  }

  /** The value of four decimal digits. */
  lemma FourDigits(a: char, b: char, c: char, d: char)
    requires '0' <= a <= '9' && '0' <= b <= '9' && '0' <= c <= '9' && '0' <= d <= '9'
    ensures JsNumbers.AllDigitsIn([a, b, c, d], 10)
    ensures JsNumbers.DigitsValue([a, b, c, d], 10)
         == 1000 * JsNumbers.DigitValue(a) + 100 * JsNumbers.DigitValue(b)
          + 10 * JsNumbers.DigitValue(c) + JsNumbers.DigitValue(d)
  {
    JsNumbers.DigitsValueAppend([], a, 10);
    assert [] + [a] == [a];
    JsNumbers.DigitsValueAppend([a], b, 10);
    JsNumbers.DigitsValueAppend([a, b], c, 10);
    JsNumbers.DigitsValueAppend([a, b, c], d, 10);
    assert [a] + [b] == [a, b] && [a, b] + [c] == [a, b, c] && [a, b, c] + [d] == [a, b, c, d];
  }

  /** The exact value of `0.` followed by four digits. */
  lemma ZeroPointFour(fp: string, v: real)
    requires |fp| == 4 && forall i :: 0 <= i < 4 ==> '0' <= fp[i] <= '9'
    requires v == (1000 * JsNumbers.DigitValue(fp[0]) + 100 * JsNumbers.DigitValue(fp[1])
                   + 10 * JsNumbers.DigitValue(fp[2]) + JsNumbers.DigitValue(fp[3])) as real / 10000.0
    ensures JsNumbers.AllDigitsIn(fp, 10)
    ensures JsNumbers.FixedPointValue("0", fp) == v
  {
    FourDigits(fp[0], fp[1], fp[2], fp[3]);
    assert fp == [fp[0], fp[1], fp[2], fp[3]];
    assert JsNumbers.DigitsValue("0", 10) == 0;
    assert JsNumbers.Pow10(4) == 10000;
  }

  /** The exact value of `0.` followed by one digit. */
  lemma ZeroPointOne(fp: string, v: real)
    requires |fp| == 1 && '0' <= fp[0] <= '9'
    requires v == JsNumbers.DigitValue(fp[0]) as real / 10.0
    ensures JsNumbers.AllDigitsIn(fp, 10)
    ensures JsNumbers.FixedPointValue("0", fp) == v
  {
    JsNumbers.DigitsValueAppend([], fp[0], 10);
    assert [] + [fp[0]] == fp;
    assert JsNumbers.DigitsValue("0", 10) == 0;
    assert JsNumbers.Pow10(1) == 10;
  }

  lemma FeeTx1()
    ensures SortValue(Fee, Tx1) == Some(0.0045)
  {
    assert Tx1.fee == "0" + "." + "0045" + " " + "ETH";
    ZeroPointFour("0045", 0.0045);
    FeeOfFixedPoint(Tx1, "0", "0045", "ETH");
  }

  lemma FeeTx2()
    ensures SortValue(Fee, Tx2) == Some(0.5)
  {
    assert Tx2.fee == "0" + "." + "5" + " " + "MATIC";
    ZeroPointOne("5", 0.5);
    FeeOfFixedPoint(Tx2, "0", "5", "MATIC");
  }

  lemma FeeTx3()
    ensures SortValue(Fee, Tx3) == Some(0.0012)
  {
    assert Tx3.fee == "0" + "." + "0012" + " " + "ETH";
    ZeroPointFour("0012", 0.0012);
    FeeOfFixedPoint(Tx3, "0", "0012", "ETH");
  }

  lemma FeeTx4()
    ensures SortValue(Fee, Tx4) == Some(0.0018)
  {
    assert Tx4.fee == "0" + "." + "0018" + " " + "ETH";
    ZeroPointFour("0018", 0.0018);
    FeeOfFixedPoint(Tx4, "0", "0018", "ETH");
  }

  lemma FeeTx5()
    ensures SortValue(Fee, Tx5) == Some(0.0065)
  {
    assert Tx5.fee == "0" + "." + "0065" + " " + "ETH";
    ZeroPointFour("0065", 0.0065);
    FeeOfFixedPoint(Tx5, "0", "0065", "ETH");
  }

  /** A confirmation time written as `<n> <unit>` sorts by the integer n. */
  lemma ConfirmationOfDecimal(tx: Transaction, n: nat, unit: string)
    requires tx.confirmationTime == JsNumbers.DecimalText(n) + " " + unit
    ensures SortValue(ConfirmationTime, tx) == Some(n as real)
  {
    var d := JsNumbers.DecimalText(n);
    assert ' ' !in d by {
      assert forall i :: 0 <= i < |d| ==> JsNumbers.IsDigitIn(d[i], 10);
    }
    SortValueIgnoresUnit(tx, d, unit);
    JsNumbers.ParseIntOfDecimalText(n, "");
    assert d + "" == d;
  }

  lemma ConfirmationTx1()
    ensures SortValue(ConfirmationTime, Tx1) == Some(15.0)
  {
    assert JsNumbers.DecimalText(15) == "15";
    ConfirmationOfDecimal(Tx1, 15, "seconds");
  }

  lemma ConfirmationTx2()
    ensures SortValue(ConfirmationTime, Tx2) == Some(8.0)
  {
    assert JsNumbers.DecimalText(8) == "8";
    ConfirmationOfDecimal(Tx2, 8, "seconds");
  }

  lemma ConfirmationTx3()
    ensures SortValue(ConfirmationTime, Tx3) == Some(3.0)
  {
    assert JsNumbers.DecimalText(3) == "3";
    ConfirmationOfDecimal(Tx3, 3, "seconds");
  }

  lemma ConfirmationTx4()
    ensures SortValue(ConfirmationTime, Tx4) == Some(5.0)
  {
    assert JsNumbers.DecimalText(5) == "5";
    ConfirmationOfDecimal(Tx4, 5, "seconds");
  }

  lemma ConfirmationTx5()
    ensures SortValue(ConfirmationTime, Tx5) == Some(18.0)
  {
    assert JsNumbers.DecimalText(18) == "18";
    ConfirmationOfDecimal(Tx5, 18, "seconds");
  }

  const T1: Timestamps.DateTime := Timestamps.DateTime(2023, 11, 10, 12, 30, 45)
  const T2: Timestamps.DateTime := Timestamps.DateTime(2023, 11, 10, 12, 15, 30)
  const T3: Timestamps.DateTime := Timestamps.DateTime(2023, 11, 10, 11, 45, 20)
  const T4: Timestamps.DateTime := Timestamps.DateTime(2023, 11, 10, 11, 20, 15)
  const T5: Timestamps.DateTime := Timestamps.DateTime(2023, 11, 10, 10, 55, 40)

  lemma DateTimeTx1()
    ensures Timestamps.ParseDateTime(Tx1.timestamp) == Some(T1)
  {
  }

  lemma DateTimeTx2()
    ensures Timestamps.ParseDateTime(Tx2.timestamp) == Some(T2)
  {
  }

  lemma DateTimeTx3()
    ensures Timestamps.ParseDateTime(Tx3.timestamp) == Some(T3)
  {
  }

  lemma DateTimeTx4()
    ensures Timestamps.ParseDateTime(Tx4.timestamp) == Some(T4)
  {
  }

  lemma DateTimeTx5()
    ensures Timestamps.ParseDateTime(Tx5.timestamp) == Some(T5)
  {
  }

  /** The records are listed newest first: each is later than the next. */
  lemma MockNewestFirst()
    ensures SortValue(Timestamp, Tx1).Some? && SortValue(Timestamp, Tx2).Some?
    ensures SortValue(Timestamp, Tx3).Some? && SortValue(Timestamp, Tx4).Some?
    ensures SortValue(Timestamp, Tx5).Some?
    ensures SortValue(Timestamp, Tx5).value < SortValue(Timestamp, Tx4).value
                < SortValue(Timestamp, Tx3).value < SortValue(Timestamp, Tx2).value
                < SortValue(Timestamp, Tx1).value
  {
    DateTimeTx1(); DateTimeTx2(); DateTimeTx3(); DateTimeTx4(); DateTimeTx5();
    Timestamps.EpochMillisIncreasing(T5, T4);
    Timestamps.EpochMillisIncreasing(T4, T3);
    Timestamps.EpochMillisIncreasing(T3, T2);
    Timestamps.EpochMillisIncreasing(T2, T1);
  }

  /** The timestamp sort values of the mock records, newest first. */
  lemma MockTimestampValues() returns (v1: real, v2: real, v3: real, v4: real, v5: real)
    ensures SortValue(Timestamp, Tx1) == Some(v1) && SortValue(Timestamp, Tx2) == Some(v2)
    ensures SortValue(Timestamp, Tx3) == Some(v3) && SortValue(Timestamp, Tx4) == Some(v4)
    ensures SortValue(Timestamp, Tx5) == Some(v5)
    ensures v5 < v4 < v3 < v2 < v1
  {
    MockNewestFirst();
    v1, v2, v3 := SortValue(Timestamp, Tx1).value, SortValue(Timestamp, Tx2).value, SortValue(Timestamp, Tx3).value;
    v4, v5 := SortValue(Timestamp, Tx4).value, SortValue(Timestamp, Tx5).value;
  }

  /** Five records whose signed sort values strictly increase are sorted, have sort
      values, and share none of them. */
  lemma FiveIncreasing(valueOf: SortValues, direction: SortDirection,
                       a: Transaction, b: Transaction, c: Transaction, d: Transaction, e: Transaction)
    requires valueOf(a).Some? && valueOf(b).Some? && valueOf(c).Some?
    requires valueOf(d).Some? && valueOf(e).Some?
    requires Directed(valueOf, direction, a) < Directed(valueOf, direction, b)
    requires Directed(valueOf, direction, b) < Directed(valueOf, direction, c)
    requires Directed(valueOf, direction, c) < Directed(valueOf, direction, d)
    requires Directed(valueOf, direction, d) < Directed(valueOf, direction, e)
    ensures HasSortValues(valueOf, [a, b, c, d, e]) && Sorted(valueOf, direction, [a, b, c, d, e])
    ensures forall x, y :: x in [a, b, c, d, e] && y in [a, b, c, d, e] && valueOf(x) == valueOf(y) ==> x == y
  {
    var s := [a, b, c, d, e];
    FiveHaveValues(valueOf, a, b, c, d, e);
    FiveStepsIncrease(valueOf, direction, a, b, c, d, e);
    ChainIncreasing(valueOf, direction, s);
    StrictlyIncreasingSorted(valueOf, direction, s);
    StrictlyIncreasingDistinct(valueOf, direction, s);
  }

  /** Five records that each have a sort value. */
  lemma FiveHaveValues(valueOf: SortValues, a: Transaction, b: Transaction, c: Transaction, d: Transaction, e: Transaction)
    requires valueOf(a).Some? && valueOf(b).Some? && valueOf(c).Some?
    requires valueOf(d).Some? && valueOf(e).Some?
    ensures HasSortValues(valueOf, [a, b, c, d, e])
  {
    var s := [a, b, c, d, e];
    forall x | x in s ensures valueOf(x).Some? {
      assert x == a || x == b || x == c || x == d || x == e;
    }
  }

  /** Four steps of increase between five records, stated by position. */
  lemma FiveStepsIncrease(valueOf: SortValues, direction: SortDirection,
                          a: Transaction, b: Transaction, c: Transaction, d: Transaction, e: Transaction)
    requires valueOf(a).Some? && valueOf(b).Some? && valueOf(c).Some?
    requires valueOf(d).Some? && valueOf(e).Some?
    requires Directed(valueOf, direction, a) < Directed(valueOf, direction, b)
    requires Directed(valueOf, direction, b) < Directed(valueOf, direction, c)
    requires Directed(valueOf, direction, c) < Directed(valueOf, direction, d)
    requires Directed(valueOf, direction, d) < Directed(valueOf, direction, e)
    ensures var s := [a, b, c, d, e];
            forall i :: 0 <= i < |s| - 1 ==> Directed(valueOf, direction, s[i]) < Directed(valueOf, direction, s[i + 1])
  {
    var s := [a, b, c, d, e];
    assert s[0] == a && s[1] == b && s[2] == c && s[3] == d && s[4] == e;
  }

  /** With every record kept and all sort values distinct, the query's order is the one
      sorted arrangement of the records. */
  lemma QueryIsTheSortedArrangement(txs: seq<Transaction>, key: SortKey, direction: SortDirection,
                                    expected: seq<Transaction>)
    requires multiset(expected) == multiset(txs)
    requires HasSortValues(ByKey(key), expected)
    requires forall x, y :: x in expected && y in expected && ByKey(key)(x) == ByKey(key)(y) ==> x == y
    requires Sorted(ByKey(key), direction, expected)
    ensures Query(txs, "", AllNetworks, key, direction) == expected
  {
    EmptySearchShowsAll(txs, key, direction);
    var r := Query(txs, "", AllNetworks, key, direction);
    assert HasSortValues(ByKey(key), txs) by {
      forall x | x in txs ensures x in expected {
        assert x in multiset(txs);
      }
    }
    assert multiset(r) == multiset(expected);
    SortedUnique(ByKey(key), direction, expected, r);
  }

  /** The query with no search and every network lists five records in the order of
      their strictly increasing signed sort values. */
  lemma QueryOfFive(txs: seq<Transaction>, key: SortKey, direction: SortDirection,
                    a: Transaction, b: Transaction, c: Transaction, d: Transaction, e: Transaction,
                    va: real, vb: real, vc: real, vd: real, ve: real)
    requires multiset(txs) == multiset([a, b, c, d, e])
    requires SortValue(key, a) == Some(va) && SortValue(key, b) == Some(vb) && SortValue(key, c) == Some(vc)
    requires SortValue(key, d) == Some(vd) && SortValue(key, e) == Some(ve)
    requires direction == Asc ==> va < vb < vc < vd < ve
    requires direction == Desc ==> ve < vd < vc < vb < va
    ensures Query(txs, "", AllNetworks, key, direction) == [a, b, c, d, e]
  {
    FiveIncreasing(ByKey(key), direction, a, b, c, d, e);
    QueryIsTheSortedArrangement(txs, key, direction, [a, b, c, d, e]);
  }

  /** The mock records, rearranged cheapest first, ... */
  lemma MockMultisetByFee()
    ensures multiset(MockTransactions) == multiset([Tx3, Tx4, Tx1, Tx5, Tx2])
  {
    assert multiset([Tx3, Tx4, Tx1, Tx5, Tx2]) == multiset{Tx3, Tx4, Tx1, Tx5, Tx2};
  }

  /** ... fastest first ... */
  lemma MockMultisetByConfirmation()
    ensures multiset(MockTransactions) == multiset([Tx3, Tx4, Tx2, Tx1, Tx5])
  {
    assert multiset([Tx3, Tx4, Tx2, Tx1, Tx5]) == multiset{Tx3, Tx4, Tx2, Tx1, Tx5};
  }

  /** ... and oldest first, are the same multiset of records. */
  lemma MockMultisetOldestFirst()
    ensures multiset(MockTransactions) == multiset([Tx5, Tx4, Tx3, Tx2, Tx1])
  {
    assert multiset([Tx5, Tx4, Tx3, Tx2, Tx1]) == multiset{Tx5, Tx4, Tx3, Tx2, Tx1};
  }

  /** Sorting by fee, cheapest first: 0.0012, 0.0018, 0.0045, 0.0065, 0.5. */
  lemma FeeAscending()
    ensures Query(MockTransactions, "", AllNetworks, Fee, Asc) == [Tx3, Tx4, Tx1, Tx5, Tx2]
  {
    FeeTx1(); FeeTx2(); FeeTx3(); FeeTx4(); FeeTx5();
    MockMultisetByFee();
    QueryOfFive(MockTransactions, Fee, Asc, Tx3, Tx4, Tx1, Tx5, Tx2, 0.0012, 0.0018, 0.0045, 0.0065, 0.5);
  }

  /** Sorting by confirmation time, fastest first: 3, 5, 8, 15, 18 seconds. */
  lemma ConfirmationAscending()
    ensures Query(MockTransactions, "", AllNetworks, ConfirmationTime, Asc) == [Tx3, Tx4, Tx2, Tx1, Tx5]
  {
    ConfirmationTx1(); ConfirmationTx2(); ConfirmationTx3(); ConfirmationTx4(); ConfirmationTx5();
    MockMultisetByConfirmation();
    QueryOfFive(MockTransactions, ConfirmationTime, Asc, Tx3, Tx4, Tx2, Tx1, Tx5, 3.0, 5.0, 8.0, 15.0, 18.0);
  }

  /** The page's opening order, newest first, is the order the records arrive in. */
  lemma NewestFirstIsArrivalOrder()
    ensures Query(MockTransactions, "", AllNetworks, Timestamp, Desc) == MockTransactions
  {
    var v1, v2, v3, v4, v5 := MockTimestampValues();
    QueryOfFive(MockTransactions, Timestamp, Desc, Tx1, Tx2, Tx3, Tx4, Tx5, v1, v2, v3, v4, v5);
  }

  /** Oldest first is the arrival order reversed. */
  lemma OldestFirstIsReversed()
    ensures Query(MockTransactions, "", AllNetworks, Timestamp, Asc) == [Tx5, Tx4, Tx3, Tx2, Tx1]
  {
    var v1, v2, v3, v4, v5 := MockTimestampValues();
    MockMultisetOldestFirst();
    QueryOfFive(MockTransactions, Timestamp, Asc, Tx5, Tx4, Tx3, Tx2, Tx1, v5, v4, v3, v2, v1);
  }

  /** The filter takes the records one at a time. */
  lemma FilterFrom(s: seq<Transaction>, i: nat, term: string, networkFilter: string)
    requires i < |s|
    ensures FilterTransactions(s[i..], term, networkFilter)
         == (if Passes(s[i], term, networkFilter) then [s[i]] else []) + FilterTransactions(s[i + 1..], term, networkFilter)
  {
    assert s[i..][0] == s[i] && s[i..][1..] == s[i + 1..];
  }

  /** Of five records exactly the second passes: the filter keeps only it. */
  lemma FilterKeepsOnlySecond(s: seq<Transaction>, term: string, networkFilter: string)
    requires |s| == 5
    requires !Passes(s[0], term, networkFilter) && Passes(s[1], term, networkFilter)
    requires !Passes(s[2], term, networkFilter) && !Passes(s[3], term, networkFilter)
    requires !Passes(s[4], term, networkFilter)
    ensures FilterTransactions(s, term, networkFilter) == [s[1]]
  {
    FilterFrom(s, 4, term, networkFilter);
    FilterFrom(s, 3, term, networkFilter);
    FilterFrom(s, 2, term, networkFilter);
    FilterFrom(s, 1, term, networkFilter);
    FilterFrom(s, 0, term, networkFilter);
    assert s[0..] == s && s[5..] == [];
  }

  /** Text that lacks one character of the search term, in either case, does not match it. */
  lemma LacksTermChar(s: string, term: string, k: nat)
    requires k < |term| && !Text.IsUpper(term[k]) && term[k] !in s
    requires 'a' <= term[k] <= 'z' ==> (term[k] as int - 32) as char !in s
    ensures !Text.Includes(Text.Lower(s), term)
  {
    Text.LowerKeepsAbsent(s, term[k]);
    if Text.Includes(Text.Lower(s), term) {
      Text.IncludesKeepsChars(Text.Lower(s), term, k);
    }
  }

  /** The network filter set to "Polygon" shows the one Polygon record. */
  lemma PolygonFilter()
    ensures FilterTransactions(MockTransactions, "", "Polygon") == [Tx2]
    ensures Query(MockTransactions, "", "Polygon", Timestamp, Desc) == [Tx2]
  {
    Text.IncludesEmpty(Text.Lower(Tx2.id));
    FilterKeepsOnlySecond(MockTransactions, "", "Polygon");
  }

  /** Neither case of the letter x occurs in the merchant id or the mainnet's name. */
  lemma NoLetterX()
    ensures 'x' !in Tx1.network && 'X' !in Tx1.network && Tx5.network == Tx1.network
    ensures 'x' !in Tx1.merchantId && 'X' !in Tx1.merchantId
  {
    assert 'x' !in Tx1.network && 'X' !in Tx1.network by { assert Tx1.network == "Ethereum Mainnet"; }
    assert 'x' !in Tx1.merchantId && 'X' !in Tx1.merchantId by { assert Tx1.merchantId == "merchant123"; }
  }

  /** "tx2" is its own lower-case form. */
  lemma LowerTx2()
    ensures Text.Lower("tx2") == "tx2"
  {
  }

  /** The search "tx2" misses the other records: their ids lack the digit 2, and their
      networks and merchant ids lack the letter x. */
  lemma SearchTx2RejectsTx1()
    ensures !Passes(MockTransactions[0], "tx2", AllNetworks)
  {
    LowerTx2();
    assert MockTransactions[0] == Tx1;
    assert !Text.Includes(Text.Lower(Tx1.id), "tx2") by { LacksTermChar(Tx1.id, "tx2", 2); }
    assert !Text.Includes(Text.Lower(Tx1.network), "tx2") by { NoLetterX(); LacksTermChar(Tx1.network, "tx2", 1); }
    assert !Text.Includes(Text.Lower(Tx1.merchantId), "tx2") by { NoLetterX(); LacksTermChar(Tx1.merchantId, "tx2", 1); }
  }

  lemma SearchTx2RejectsTx3()
    ensures !Passes(MockTransactions[2], "tx2", AllNetworks)
  {
    LowerTx2();
    assert MockTransactions[2] == Tx3;
    assert !Text.Includes(Text.Lower(Tx3.id), "tx2") by { LacksTermChar(Tx3.id, "tx2", 2); }
    assert !Text.Includes(Text.Lower(Tx3.network), "tx2") by { LacksTermChar(Tx3.network, "tx2", 1); }
    assert !Text.Includes(Text.Lower(Tx3.merchantId), "tx2") by { NoLetterX(); LacksTermChar(Tx3.merchantId, "tx2", 1); }
  }

  lemma SearchTx2RejectsTx4()
    ensures !Passes(MockTransactions[3], "tx2", AllNetworks)
  {
    LowerTx2();
    assert MockTransactions[3] == Tx4;
    assert !Text.Includes(Text.Lower(Tx4.id), "tx2") by { LacksTermChar(Tx4.id, "tx2", 2); }
    assert !Text.Includes(Text.Lower(Tx4.network), "tx2") by { LacksTermChar(Tx4.network, "tx2", 1); }
    assert !Text.Includes(Text.Lower(Tx4.merchantId), "tx2") by { NoLetterX(); LacksTermChar(Tx4.merchantId, "tx2", 1); }
  }

  lemma SearchTx2RejectsTx5()
    ensures !Passes(MockTransactions[4], "tx2", AllNetworks)
  {
    LowerTx2();
    assert MockTransactions[4] == Tx5;
    assert !Text.Includes(Text.Lower(Tx5.id), "tx2") by { LacksTermChar(Tx5.id, "tx2", 2); }
    assert !Text.Includes(Text.Lower(Tx5.network), "tx2") by { NoLetterX(); LacksTermChar(Tx5.network, "tx2", 1); }
    assert !Text.Includes(Text.Lower(Tx5.merchantId), "tx2") by { NoLetterX(); LacksTermChar(Tx5.merchantId, "tx2", 1); }
  }

  lemma SearchTx2AcceptsTx2()
    ensures Passes(MockTransactions[1], "tx2", AllNetworks)
  {
    LowerTx2();
  }

  lemma SearchTx2Filter()
    ensures FilterTransactions(MockTransactions, "tx2", AllNetworks) == [Tx2]
  {
    SearchTx2RejectsTx1(); SearchTx2RejectsTx3(); SearchTx2RejectsTx4(); SearchTx2RejectsTx5();
    SearchTx2AcceptsTx2();
    FilterKeepsOnlySecond(MockTransactions, "tx2", AllNetworks);
  }

  /** Searching for "tx2" finds that record alone. */
  lemma SearchTx2()
    ensures Query(MockTransactions, "tx2", AllNetworks, Timestamp, Desc) == [Tx2]
  {
    SearchTx2Filter();
  }

  /** Appending a name to a list extends its `Distinct` by that name unless it is listed. */
  lemma DistinctSnoc(p: seq<string>, x: string)
    ensures Distinct(p + [x]) == if x in Distinct(p) then Distinct(p) else Distinct(p) + [x]
  {
    assert (p + [x])[..|p|] == p;
  }

  /** Distinct names are listed as they come, one ... */
  lemma DistinctOne(a: string)
    ensures Distinct([a]) == [a]
  {
    DistinctSnoc([], a);
    assert [] + [a] == [a];
  }

  /** ... two ... */
  lemma DistinctTwo(a: string, b: string)
    requires a != b
    ensures Distinct([a, b]) == [a, b]
  {
    DistinctOne(a);
    assert b !in [a];
    DistinctSnoc([a], b);
    assert [a] + [b] == [a, b];
  }

  /** ... three ... */
  lemma DistinctThree(a: string, b: string, c: string)
    requires a != b && a != c && b != c
    ensures Distinct([a, b, c]) == [a, b, c]
  {
    DistinctTwo(a, b);
    assert c !in [a, b];
    DistinctSnoc([a, b], c);
    assert [a, b] + [c] == [a, b, c];
  }

  /** ... and four. */
  lemma DistinctFour(a: string, b: string, c: string, d: string)
    requires a != b && a != c && a != d && b != c && b != d && c != d
    ensures Distinct([a, b, c, d]) == [a, b, c, d]
  {
    DistinctThree(a, b, c);
    assert d !in [a, b, c];
    DistinctSnoc([a, b, c], d);
    assert [a, b, c] + [d] == [a, b, c, d];
  }

  /** Four distinct names followed by a repeat of the first are listed as the four. */
  lemma DistinctFourThenRepeat(a: string, b: string, c: string, d: string)
    requires a != b && a != c && a != d && b != c && b != d && c != d
    ensures Distinct([a, b, c, d, a]) == [a, b, c, d]
  {
    DistinctFour(a, b, c, d);
    assert a in [a, b, c, d];
    DistinctSnoc([a, b, c, d], a);
    assert [a, b, c, d] + [a] == [a, b, c, d, a];
  }

  /** The network filter offers the four networks of the log, mainnet first. */
  lemma MockNetworkOptions()
    ensures UniqueNetworks(MockTransactions) == ["Ethereum Mainnet", "Polygon", "Optimism", "Arbitrum"]
  {
    assert Networks(MockTransactions)
        == ["Ethereum Mainnet", "Polygon", "Optimism", "Arbitrum", "Ethereum Mainnet"];
    DistinctFourThenRepeat("Ethereum Mainnet", "Polygon", "Optimism", "Arbitrum");
  }

  /** The ids are short enough to be shown whole. */
  lemma MockIdsShownWhole()
    ensures forall tx :: tx in MockTransactions ==> DisplayId(tx.id) == tx.id
  {
  }
}
