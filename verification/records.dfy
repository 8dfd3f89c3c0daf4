/** The rows of the bank dataset. Column names follow the dataset:
    Nama_Bank (bank), Periode (period), ROA, ROE, NIM, NPL, Harga_Saham
    (share price), Harga_Saham_Next (next price), Return_Historis
    (historical return). */
module Records {
  import opened Wrappers

  /** The five numeric columns, which are also the prediction model's inputs. */
  datatype Features = Features(roa: real, roe: real, nim: real, npl: real, price: real)

  /** A row as loaded: numeric cells are None where `pd.to_numeric(..., errors='coerce')` left NaN. */
  datatype RawRow = RawRow(
    bank: string,
    period: string,
    roa: Option<real>,
    roe: Option<real>,
    nim: Option<real>,
    npl: Option<real>,
    price: Option<real>)

  /** A row whose five numeric cells are all present. */
  datatype Observation = Observation(bank: string, period: string, features: Features)

  /** A loaded table: its column names and its rows. */
  datatype Table = Table(columns: seq<string>, rows: seq<RawRow>)

  /** A preprocessed row: the features, the next price of the same bank, and
      the return since the previous row of the same bank (None where NaN). */
  datatype Record = Record(
    bank: string,
    period: string,
    features: Features,
    nextPrice: real,
    histReturn: Option<real>)

  /** The bank column of a table of observations. */
  function ObservationBanks(obs: seq<Observation>): (banks: seq<string>)
    ensures |banks| == |obs|
    ensures forall i :: 0 <= i < |obs| ==> banks[i] == obs[i].bank
  {
    seq(|obs|, i requires 0 <= i < |obs| => obs[i].bank)
  }

  /** The bank column of a preprocessed table. */
  function BankColumn(recs: seq<Record>): (banks: seq<string>)
    ensures |banks| == |recs|
    ensures forall i :: 0 <= i < |recs| ==> banks[i] == recs[i].bank
  {
    seq(|recs|, i requires 0 <= i < |recs| => recs[i].bank)
  }
}
