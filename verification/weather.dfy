/**
 The record the report pipeline consumes: one daily weather observation as
 read from the climate store. Temperatures (degrees Celsius) and
 precipitation (millimetres) are exact reals here; the store holds
 floating-point numbers.
 */
module Weather {

  datatype Observation = Observation(
    year: int,
    month: int,
    day: int,
    meantemp: real,
    mintemp: real,
    maxtemp: real,
    precipitation: real)

  /** The year of every observation, in input order. */
  function YearsOf(s: seq<Observation>): (r: seq<int>)
    ensures |r| == |s|
    ensures forall i :: 0 <= i < |s| ==> r[i] == s[i].year
  {
    seq(|s|, i requires 0 <= i < |s| => s[i].year)
  }
}
