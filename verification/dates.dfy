/** `convert_date`: turns an alarm's `MM/DD/YYYY HH:MM:SS` trigger date into
    the ISO 8601 boundary `YYYY-MM-DDTHH:MM:SS.000Z` by fixed character offsets,
    with no date parsing at all. */
module Dates {

  /** Python's `s[i:j]` for `0 <= i <= j`: bounds past the end are clamped. */
  function Slice(s: string, i: nat, j: nat): (r: string)
    requires i <= j
    ensures j <= |s| ==> r == s[i..j]
    ensures |r| <= j - i
    ensures |s| < j && i < j ==> |r| < j - i
    ensures |s| < j ==> r == s[if i <= |s| then i else |s|..]
  {
    var hi := if j <= |s| then j else |s|;
    var lo := if i <= hi then i else hi;
    s[lo..hi]
  }

  function ConvertDate(d: string): (r: string)
    ensures |r| == 24 <==> |d| >= 19
  {
    Slice(d, 6, 10) + "-" + Slice(d, 0, 2) + "-" + Slice(d, 3, 5) + "T" + Slice(d, 11, 19) + ".000Z"
  }

  /** The trigger-date layout the server sends. */
  predicate UsTimestamp(d: string) {
    |d| == 19 && d[2] == '/' && d[5] == '/' && d[10] == ' '
  }

  /** The layout of a query boundary. */
  predicate IsoBoundary(s: string) {
    |s| == 24 && s[4] == '-' && s[7] == '-' && s[10] == 'T' && s[19..] == ".000Z"
  }

  /** Reads an ISO boundary back into the trigger-date layout. */
  function IsoToUs(s: string): string
    requires |s| >= 19
  {
    s[5..7] + "/" + s[8..10] + "/" + s[0..4] + " " + s[11..19]
  }

  /** Every field of the result is copied from its fixed offset in the input;
      characters after the nineteenth are ignored. */
  lemma ConvertDateFields(d: string)
    requires |d| >= 19
    ensures var r := ConvertDate(d);
            && r[0..4] == d[6..10] && r[4] == '-'
            && r[5..7] == d[0..2] && r[7] == '-'
            && r[8..10] == d[3..5] && r[10] == 'T'
            && r[11..19] == d[11..19] && r[19..] == ".000Z"
    ensures ConvertDate(d) == ConvertDate(d[..19])
  {
    var r := ConvertDate(d);
    assert r == d[6..10] + "-" + d[0..2] + "-" + d[3..5] + "T" + d[11..19] + ".000Z";
    var t := d[..19];
    assert t[6..10] == d[6..10] && t[0..2] == d[0..2] && t[3..5] == d[3..5] && t[11..19] == d[11..19];
    assert ConvertDate(t) == r;
  }

  /** A well-formed trigger date becomes a well-formed boundary that reads back
      as the same date. */
  lemma ConvertDateRoundTrip(d: string)
    requires UsTimestamp(d)
    ensures IsoBoundary(ConvertDate(d))
    ensures IsoToUs(ConvertDate(d)) == d
  {
    ConvertDateFields(d);
    var r := ConvertDate(d);
    assert IsoToUs(r) == d[0..2] + "/" + d[3..5] + "/" + d[6..10] + " " + d[11..19];
    assert d == d[0..2] + [d[2]] + d[3..5] + [d[5]] + d[6..10] + [d[10]] + d[11..19];
  }

  /** Every boundary is the conversion of exactly one trigger date. */
  lemma ConvertDateOnto(s: string)
    requires IsoBoundary(s)
    ensures UsTimestamp(IsoToUs(s))
    ensures ConvertDate(IsoToUs(s)) == s
  {
    var d := IsoToUs(s);
    assert d[6..10] == s[0..4] && d[0..2] == s[5..7] && d[3..5] == s[8..10] && d[11..19] == s[11..19];
    assert s == s[0..4] + [s[4]] + s[5..7] + [s[7]] + s[8..10] + [s[10]] + s[11..19] + s[19..];
  }

  lemma WorkedDate()
    ensures ConvertDate("07/23/2018 14:05:09") == "2018-07-23T14:05:09.000Z"
  {
    var d := "07/23/2018 14:05:09";
    assert Slice(d, 6, 10) == "2018";
    assert Slice(d, 0, 2) == "07";
    assert Slice(d, 3, 5) == "23";
    assert Slice(d, 11, 19) == "14:05:09";
  }
}
