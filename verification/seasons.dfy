/** `assign_season` (lines 634-642): the season of a month number. */
module Seasons {

  /** Months 12, 1, 2 are season 1; 3-5 season 2; 6-8 season 3; every other
      value, including numbers that are not months, season 4. */
  function AssignSeason(month: int): (s: int)
    ensures 1 <= s <= 4
    ensures s == 1 <==> month == 12 || month == 1 || month == 2
    ensures s == 2 <==> 3 <= month <= 5
    ensures s == 3 <==> 6 <= month <= 8
  {
    if month in [12, 1, 2] then 1
    else if month in [3, 4, 5] then 2
    else if month in [6, 7, 8] then 3
    else 4
  }

  /** Each season is three consecutive months of the year (counting from
      December for season 1). */
  lemma SeasonsOfTheYear(month: int)
    requires 1 <= month <= 12
    ensures AssignSeason(month) == (month % 12) / 3 + 1
  {
  }
}
