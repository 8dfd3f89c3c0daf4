/** `preprocess_data` of `src/preprocessing.py`: column validation, dropping
    rows with a missing numeric cell, the next-price target, the historical
    return and the final sort. */
module Preprocessing {
  import opened Wrappers
  import opened Ordering
  import opened Records
  import opened Grouping

  /** The columns the input must have, in the order they are reported. */
  const RequiredColumns: seq<string> := ["Nama_Bank", "Periode", "ROA", "ROE", "NIM", "NPL", "Harga_Saham"]

  /** `a` is `b` with some elements left out, order kept. */
  ghost predicate IsSubsequence<T>(a: seq<T>, b: seq<T>)
    decreases |b|
  {
    if |a| == 0 then true
    else if |b| == 0 then false
    else if a[0] == b[0] then IsSubsequence(a[1..], b[1..])
    else IsSubsequence(a, b[1..])
  }

  /** The required columns the table lacks, in the order they are required. */
  function MissingColumns(required: seq<string>, columns: seq<string>): (missing: seq<string>)
    ensures forall c :: c in missing <==> c in required && c !in columns
    ensures IsSubsequence(missing, required)
  {
    if |required| == 0 then []
    else if required[0] in columns then MissingColumns(required[1..], columns)
    else [required[0]] + MissingColumns(required[1..], columns)
  }

  /** None of the five numeric cells is missing. */
  predicate Complete(row: RawRow) {
    row.roa.Some? && row.roe.Some? && row.nim.Some? && row.npl.Some? && row.price.Some?
  }

  /** `dropna(subset=numeric_cols)`: keeps exactly the complete rows, in order. */
  function DropMissing(rows: seq<RawRow>): (kept: seq<RawRow>)
    ensures forall i :: 0 <= i < |kept| ==> Complete(kept[i])
    ensures forall x :: multiset(kept)[x] == if Complete(x) then multiset(rows)[x] else 0
    ensures IsSubsequence(kept, rows)
  {
    if |rows| == 0 then []
    else
      assert rows == [rows[0]] + rows[1..];
      if Complete(rows[0]) then [rows[0]] + DropMissing(rows[1..])
      else DropMissing(rows[1..])
  }

  function Observe(row: RawRow): Observation
    requires Complete(row)
  {
    Observation(row.bank, row.period,
      Features(row.roa.value, row.roe.value, row.nim.value, row.npl.value, row.price.value))
  }

  /** The complete rows, with their numeric cells read. */
  function Clean(rows: seq<RawRow>): (obs: seq<Observation>)
    ensures |obs| == |DropMissing(rows)|
    ensures forall i :: 0 <= i < |obs| ==> obs[i] == Observe(DropMissing(rows)[i])
  {
    var kept := DropMissing(rows);
    seq(|kept|, i requires 0 <= i < |kept| => Observe(kept[i]))
  }

  /** Row by row, cleaning keeps a complete raw row, with its cells read,
      and drops any other, leaving the rows after it to be cleaned alike. */
  lemma CleanCons(r: RawRow, rows: seq<RawRow>)
    ensures Clean([r] + rows) == (if Complete(r) then [Observe(r)] else []) + Clean(rows)
  {
    DropMissingCons(r, rows);
    ObserveCons(r, DropMissing(rows), DropMissing([r] + rows), Clean(rows), Clean([r] + rows));
  }

  /** Reading the cells of a table with a complete row in front, or a row
      that was dropped, row by row. */
  lemma ObserveCons(r: RawRow, k0: seq<RawRow>, k1: seq<RawRow>, o0: seq<Observation>, o1: seq<Observation>)
    requires k1 == (if Complete(r) then [r] else []) + k0
    requires |o0| == |k0| && forall i :: 0 <= i < |o0| ==> Complete(k0[i]) && o0[i] == Observe(k0[i])
    requires |o1| == |k1| && forall i :: 0 <= i < |o1| ==> Complete(k1[i]) && o1[i] == Observe(k1[i])
    ensures o1 == (if Complete(r) then [Observe(r)] else []) + o0
  {
    if Complete(r) {
      forall i | 0 <= i < |o1| ensures o1[i] == ([Observe(r)] + o0)[i] {
        if i > 0 {
          assert k1[i] == k0[i - 1];
        }
      }
    }
  }

  /** `dropna` row by row: a complete row in front is kept, any other dropped. */
  lemma DropMissingCons(r: RawRow, rows: seq<RawRow>)
    ensures DropMissing([r] + rows) == (if Complete(r) then [r] else []) + DropMissing(rows)
  {
    assert ([r] + rows)[1..] == rows;
  }

  /** Some complete raw row reads as `o`. */
  predicate ReadFromComplete(rows: seq<RawRow>, o: Observation) {
    exists k :: 0 <= k < |rows| && Complete(rows[k]) && Observe(rows[k]) == o
  }

  /** An observation is cleaned out of the raw table exactly when some
      complete raw row reads as it. */
  lemma {:induction false} CleanExactlyComplete(rows: seq<RawRow>)
    ensures forall o :: o in Clean(rows) <==> ReadFromComplete(rows, o)
  {
    if |rows| > 0 {
      var r, rest := rows[0], rows[1..];
      assert rows == [r] + rest;
      CleanConsMembers(r, rest);
      ReadFromCompleteCons(r, rest);
      CleanExactlyComplete(rest);
    }
  }

  /** What cleaning a row in front of a table adds to its observations. */
  lemma CleanConsMembers(r: RawRow, rest: seq<RawRow>)
    ensures forall o :: o in Clean([r] + rest) <==> (Complete(r) && Observe(r) == o) || o in Clean(rest)
  {
    CleanCons(r, rest);
  }

  /** What a row in front of a table adds to the observations its complete
      rows read as. */
  lemma ReadFromCompleteCons(r: RawRow, rest: seq<RawRow>)
    ensures forall o :: ReadFromComplete([r] + rest, o) <==>
      (Complete(r) && Observe(r) == o) || ReadFromComplete(rest, o)
  {
    var rows := [r] + rest;
    forall o | ReadFromComplete(rest, o) ensures ReadFromComplete(rows, o) {
      var k :| 0 <= k < |rest| && Complete(rest[k]) && Observe(rest[k]) == o;
      assert rows[k + 1] == rest[k];
    }
    forall o | ReadFromComplete(rows, o) && !(Complete(r) && Observe(r) == o)
      ensures ReadFromComplete(rest, o)
    {
      var k :| 0 <= k < |rows| && Complete(rows[k]) && Observe(rows[k]) == o;
      assert rest[k - 1] == rows[k];
    }
    assert rows[0] == r;
  }

  /** A row together with the price of its bank's next row. */
  datatype Targeted = Targeted(obs: Observation, nextPrice: real)

  function TargetBanks(ts: seq<Targeted>): (banks: seq<string>)
    ensures |banks| == |ts|
    ensures forall p :: 0 <= p < |ts| ==> banks[p] == ts[p].obs.bank
  {
    seq(|ts|, p requires 0 <= p < |ts| => ts[p].obs.bank)
  }

  /** The price `groupby('Nama_Bank')['Harga_Saham'].shift(-1)` puts on row `k`. */
  function NextPrice(obs: seq<Observation>, k: nat): (price: real)
    requires k < |obs| && HasLater(ObservationBanks(obs), k)
    ensures exists j: nat :: IsNextSame(ObservationBanks(obs), k, j) && price == obs[j].features.price
  {
    HasLaterIffNext(ObservationBanks(obs), k);
    obs[NextSame(ObservationBanks(obs), k).value].features.price
  }

  /** The shift and the following `dropna`: every row that has a later row
      of its bank, in row order, with that later row's price as target. */
  function AttachTargets(obs: seq<Observation>): (ts: seq<Targeted>)
    ensures |ts| == |Kept(ObservationBanks(obs))|
    ensures forall p :: 0 <= p < |ts| ==> ts[p].obs == obs[Kept(ObservationBanks(obs))[p]]
    ensures forall p :: 0 <= p < |ts| ==>
      exists j: nat :: IsNextSame(ObservationBanks(obs), Kept(ObservationBanks(obs))[p], j)
               && ts[p].nextPrice == obs[j].features.price
  {
    var ks := Kept(ObservationBanks(obs));
    seq(|ks|, p requires 0 <= p < |ks| => Targeted(obs[ks[p]], NextPrice(obs, ks[p])))
  }

  /** The bank column after the shift is the bank column at the kept rows. */
  lemma AttachTargetsBanks(obs: seq<Observation>)
    ensures TargetBanks(AttachTargets(obs)) == Select(ObservationBanks(obs), Kept(ObservationBanks(obs)))
  {
  }

  /** Every bank loses exactly its last row. */
  lemma AttachTargetsPerBank(obs: seq<Observation>, b: string)
    ensures Count(TargetBanks(AttachTargets(obs)), b)
         == if Count(ObservationBanks(obs), b) > 0 then Count(ObservationBanks(obs), b) - 1 else 0
  {
    var keys := ObservationBanks(obs);
    AttachTargetsBanks(obs);
    KeptKeyCount(keys, 0, b);
    assert keys[0..] == keys;
  }

  /** The number of rows removed is the number of distinct banks. */
  lemma AttachTargetsSize(obs: seq<Observation>)
    ensures |AttachTargets(obs)| + |KeySet(ObservationBanks(obs))| == |obs|
  {
    var keys := ObservationBanks(obs);
    KeptCount(keys, 0);
    assert keys[0..] == keys;
  }

  function PriceAt(ts: seq<Targeted>, p: nat): real
    requires p < |ts|
  {
    ts[p].obs.features.price
  }

  /** `groupby('Nama_Bank')['Harga_Saham'].pct_change()` at row `p`: the relative
      change from the previous row of the same bank; missing for a bank's
      first row, and where the previous price is zero. */
  function ReturnAt(ts: seq<Targeted>, p: nat): (v: Option<real>)
    requires p < |ts|
    ensures v.Some? <==> exists q :: IsPrevSame(TargetBanks(ts), p, q) && PriceAt(ts, q) != 0.0
    ensures forall q :: IsPrevSame(TargetBanks(ts), p, q) && PriceAt(ts, q) != 0.0 ==>
      v.Some? && v.value * PriceAt(ts, q) == PriceAt(ts, p) - PriceAt(ts, q)
  {
    match PrevSame(TargetBanks(ts), p)
    case None => None
    case Some(q) =>
      forall q' | IsPrevSame(TargetBanks(ts), p, q') ensures q' == q {
        PrevSameUnique(TargetBanks(ts), p, q, q');
      }
      if PriceAt(ts, q) == 0.0 then None
      else Some(PriceAt(ts, p) / PriceAt(ts, q) - 1.0)
  }

  /** A bank's first row has no historical return. */
  lemma FirstRowHasNoReturn(ts: seq<Targeted>, p: nat)
    requires p < |ts|
    requires forall q :: 0 <= q < p ==> ts[q].obs.bank != ts[p].obs.bank
    ensures ReturnAt(ts, p).None?
  {
  }

  /** Adds the `Return_Historis` column. */
  function WithReturns(ts: seq<Targeted>): (recs: seq<Record>)
    ensures |recs| == |ts|
    ensures forall p {:trigger recs[p]} :: 0 <= p < |ts| ==>
      recs[p] == Record(ts[p].obs.bank, ts[p].obs.period, ts[p].obs.features, ts[p].nextPrice, ReturnAt(ts, p))
  {
    seq(|ts|, p requires 0 <= p < |ts| =>
      Record(ts[p].obs.bank, ts[p].obs.period, ts[p].obs.features, ts[p].nextPrice, ReturnAt(ts, p)))
  }

  /** `pct_change` per bank: a row keeps its bank, period, ratios and target,
      and gains a return exactly when its bank has an earlier row with a
      nonzero price, the relative change from that row's price. */
  lemma WithReturnsPctChange(ts: seq<Targeted>, p: nat)
    requires p < |ts|
    ensures var r := WithReturns(ts)[p];
            r.bank == ts[p].obs.bank && r.period == ts[p].obs.period
            && r.features == ts[p].obs.features && r.nextPrice == ts[p].nextPrice
    ensures WithReturns(ts)[p].histReturn.Some? <==>
      exists q :: IsPrevSame(TargetBanks(ts), p, q) && PriceAt(ts, q) != 0.0
    ensures forall q :: IsPrevSame(TargetBanks(ts), p, q) && PriceAt(ts, q) != 0.0 ==>
      WithReturns(ts)[p].histReturn.Some?
      && WithReturns(ts)[p].histReturn.value * PriceAt(ts, q) == PriceAt(ts, p) - PriceAt(ts, q)
  {
    var v := ReturnAt(ts, p);
    assert WithReturns(ts)[p].histReturn == v;
  }

  /** Order of `sort_values(by=['Nama_Bank', 'Periode'])`: by bank, then period. */
  predicate RecordLe(a: Record, b: Record) {
    StrLt(a.bank, b.bank) || (a.bank == b.bank && StrLe(a.period, b.period))
  }

  predicate SortedByBankPeriod(s: seq<Record>) {
    forall i :: 0 < i < |s| ==> RecordLe(s[i - 1], s[i])
  }

  lemma RecordLeTotal(a: Record, b: Record)
    ensures RecordLe(a, b) || RecordLe(b, a)
  {
    StrLeTotal(a.bank, b.bank);
    StrLeTotal(a.period, b.period);
  }

  lemma RecordLeTransitive(a: Record, b: Record, c: Record)
    requires RecordLe(a, b) && RecordLe(b, c)
    ensures RecordLe(a, c)
  {
    if a.bank == b.bank {
      if b.bank == c.bank {
        StrLeTransitive(a.period, b.period, c.period);
      }
    } else if b.bank == c.bank {
    } else {
      StrLtTransitive(a.bank, b.bank, c.bank);
    }
  }

  function InsertRecord(r: Record, s: seq<Record>): (t: seq<Record>)
    requires SortedByBankPeriod(s)
    ensures SortedByBankPeriod(t)
    ensures multiset(t) == multiset(s) + multiset{r}
    ensures |t| > 0 && (t[0] == r || (|s| > 0 && t[0] == s[0]))
  {
    if |s| == 0 then [r]
    else if RecordLe(r, s[0]) then [r] + s
    else
      RecordLeTotal(r, s[0]);
      assert s == [s[0]] + s[1..];
      [s[0]] + InsertRecord(r, s[1..])
  }

  /** `sort_values`: a permutation in (bank, period) order. */
  function SortRecords(s: seq<Record>): (t: seq<Record>)
    ensures SortedByBankPeriod(t)
    ensures multiset(t) == multiset(s)
  {
    if |s| == 0 then []
    else
      assert s == [s[0]] + s[1..];
      InsertRecord(s[0], SortRecords(s[1..]))
  }

  /** Sorted adjacent pairs give every pair in order. */
  lemma {:induction false} SortedPairwise(s: seq<Record>)
    requires SortedByBankPeriod(s)
    ensures forall i, j :: 0 <= i < j < |s| ==> RecordLe(s[i], s[j])
  {
    forall i, j | 0 <= i < j < |s| ensures RecordLe(s[i], s[j]) {
      SortedUpTo(s, i, j);
    }
  }

  lemma {:induction false} SortedUpTo(s: seq<Record>, i: nat, j: nat)
    requires SortedByBankPeriod(s) && i < j < |s|
    ensures RecordLe(s[i], s[j])
    decreases j - i
  {
    if j > i + 1 {
      SortedUpTo(s, i, j - 1);
      RecordLeTransitive(s[i], s[j - 1], s[j]);
    }
  }

  /** After the sort each bank's rows are contiguous. */
  lemma BanksContiguous(s: seq<Record>, i: nat, j: nat, k: nat)
    requires SortedByBankPeriod(s)
    requires i < j < k < |s| && s[i].bank == s[k].bank
    ensures s[j].bank == s[i].bank
  {
    SortedUpTo(s, i, j);
    SortedUpTo(s, j, k);
    if s[j].bank != s[i].bank {
      StrLeAntisymmetric(s[i].bank, s[j].bank);
    }
  }

  /** The pipeline before the sort. */
  function Unsorted(rows: seq<RawRow>): seq<Record> {
    WithReturns(AttachTargets(Clean(rows)))
  }

  /** `preprocess_data`: None when a required column is missing; otherwise the
      preprocessed rows, a permutation of the unsorted pipeline's rows in
      (bank, period) order. */
  function Preprocess(t: Table): (r: Option<seq<Record>>)
    ensures r.None? <==> exists c :: c in RequiredColumns && c !in t.columns
    ensures r.Some? ==> SortedByBankPeriod(r.value)
    ensures r.Some? ==> multiset(r.value) == multiset(Unsorted(t.rows))
  {
    var missing := MissingColumns(RequiredColumns, t.columns);
    if |missing| > 0 then
      assert missing[0] in missing;
      None
    else
      Some(SortRecords(Unsorted(t.rows)))
  }

  lemma BankColumnCons(x: Record, y: seq<Record>)
    ensures BankColumn([x] + y) == [x.bank] + BankColumn(y)
  {
  }

  /** The bank count of a record followed by a table. */
  lemma RecordConsCount(x: Record, y: seq<Record>, b: string)
    ensures Count(BankColumn([x] + y), b) == (if x.bank == b then 1 else 0) + Count(BankColumn(y), b)
  {
    BankColumnCons(x, y);
    CountCons(x.bank, BankColumn(y), b);
  }

  /** Inserting a record adds one row to its own bank and none to any other. */
  lemma {:induction false} InsertKeepsBankCount(r: Record, s: seq<Record>, b: string)
    requires SortedByBankPeriod(s)
    ensures Count(BankColumn(InsertRecord(r, s)), b)
         == Count(BankColumn(s), b) + (if r.bank == b then 1 else 0)
  {
    if |s| == 0 {
      RecordConsCount(r, [], b);
      assert [r] + [] == [r];
    } else if RecordLe(r, s[0]) {
      RecordConsCount(r, s, b);
    } else {
      InsertKeepsBankCount(r, s[1..], b);
      RecordConsCount(s[0], InsertRecord(r, s[1..]), b);
      assert s == [s[0]] + s[1..];
      RecordConsCount(s[0], s[1..], b);
    }
  }

  /** The sort keeps the number of rows of every bank. */
  lemma {:induction false} SortKeepsBankCount(s: seq<Record>, b: string)
    ensures Count(BankColumn(SortRecords(s)), b) == Count(BankColumn(s), b)
  {
    if |s| > 0 {
      SortKeepsBankCount(s[1..], b);
      InsertKeepsBankCount(s[0], SortRecords(s[1..]), b);
      assert s == [s[0]] + s[1..];
      RecordConsCount(s[0], s[1..], b);
    }
  }

  /** The preprocessed table has one row fewer than the complete rows for
      every distinct bank. */
  lemma PreprocessSize(t: Table)
    requires Preprocess(t).Some?
    ensures |Preprocess(t).value| + |KeySet(ObservationBanks(Clean(t.rows)))| == |Clean(t.rows)|
  {
    var r := Preprocess(t).value;
    assert |multiset(r)| == |multiset(Unsorted(t.rows))|;
    AttachTargetsSize(Clean(t.rows));
  }

  /** A bank with `n` complete rows has `n - 1` preprocessed rows. */
  lemma PreprocessPerBank(t: Table, b: string)
    requires Preprocess(t).Some?
    ensures var n := Count(ObservationBanks(Clean(t.rows)), b);
      Count(BankColumn(Preprocess(t).value), b) == if n > 0 then n - 1 else 0
  {
    var ts := AttachTargets(Clean(t.rows));
    SortKeepsBankCount(Unsorted(t.rows), b);
    WithReturnsBanks(ts);
    AttachTargetsPerBank(Clean(t.rows), b);
  }

  /** Adding the return column keeps the bank column. */
  lemma WithReturnsBanks(ts: seq<Targeted>)
    ensures BankColumn(WithReturns(ts)) == TargetBanks(ts)
  {
    assert forall p :: 0 <= p < |ts| ==> BankColumn(WithReturns(ts))[p] == WithReturns(ts)[p].bank;
  }
}
