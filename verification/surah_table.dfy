/**
 The static surah reference table that both front ends load. Its contents are
 not part of this model: it is any sequence of rows with positive ayah counts and
 pairwise distinct surah numbers.
 */
module SurahTable {
  import opened Wrappers

  /** One row of the table: the surah's number, how many ayat it has, and its two names. */
  datatype Surah = Surah(number: int, ayats: int, name: string, englishName: string)

  type Table = seq<Surah>

  /** What the application relies on: every surah has at least one ayah and no two rows share a number. */
  predicate ValidTable(table: Table) {
    && (forall i :: 0 <= i < |table| ==> table[i].ayats > 0)
    && (forall i, j :: 0 <= i < j < |table| ==> table[i].number != table[j].number)
  }

  /** Position of the first row whose number is `number`, if any. */
  function IndexOf(table: Table, number: int): (r: Option<nat>)
    ensures r.Some? ==> r.value < |table| && table[r.value].number == number
    ensures r.Some? ==> forall j :: 0 <= j < r.value ==> table[j].number != number
    ensures r.None? ==> forall j :: 0 <= j < |table| ==> table[j].number != number
  {
    if |table| == 0 then None
    else if table[0].number == number then Some(0)
    else
      match IndexOf(table[1..], number)
      case None => None
      case Some(k) => Some(k + 1)
  }

  /** `surahs.find(s => s.number == number)`: the first row with that number, or nothing. */
  function Find(table: Table, number: int): (r: Option<Surah>)
    ensures r.Some? ==> r.value in table && r.value.number == number
    ensures r.None? <==> forall j :: 0 <= j < |table| ==> table[j].number != number
  {
    match IndexOf(table, number)
    case None => None
    case Some(i) => Some(table[i])
  }

  /** In a valid table, looking a row up by its own number finds that row. */
  lemma FindOwnNumber(table: Table, i: int)
    requires ValidTable(table)
    requires 0 <= i < |table|
    ensures Find(table, table[i].number) == Some(table[i])
  {
  }

  /**
   `surahs.reduce((acc, s) => acc + s.ayats, 0)`. Every surah has at least one ayah,
   so the total is at least the number of surahs and never zero for a non-empty table.
   */
  function TotalAyats(table: Table): (r: int)
    ensures (forall i :: 0 <= i < |table| ==> table[i].ayats > 0) ==> r >= |table|
  {
    if |table| == 0 then 0
    else
      assert forall i :: 0 <= i < |table[1..]| ==> table[1..][i] == table[i + 1];
      table[0].ayats + TotalAyats(table[1..])
  }
}
