/** `dehexify`: the fixed two-table substitution applied to the `ITEMS` field
    of a legacy response. The first table maps single control characters, the
    second exact upper-case percent codes; each table is applied entry by entry,
    in order, with `str.replace`. */
module Dehex {
  import opened Text

  /** A code looked for by `str.replace`; never empty. */
  type Code = s: string | |s| > 0 witness "%"

  /** One `enc -> dec` entry of a substitution table. Every replacement in
      both tables is a single character. */
  datatype Sub = Sub(enc: Code, dec: char)

  /** The first table. Only its first three entries change anything: every
      other entry maps a character to itself (`'\x22'` is `'"'`, and so on). */
  const HexTable: seq<Sub> := HexControls + HexSelf

  const HexControls: seq<Sub> := [
    Sub("\U{1c}", ','),
    Sub("\U{11}", ','),
    Sub("\U{12}", '\n')
  ]

  const HexSelf: seq<Sub> := [
    Sub("\"", '"'),
    Sub("#", '#'),
    Sub("'", '\''),
    Sub("(", '('),
    Sub(")", ')'),
    Sub("+", '+'),
    Sub("-", '-'),
    Sub(".", '.'),
    Sub("/", '/'),
    Sub("|", '|')
  ]

  /** The second table: exact, upper-case three-character codes only. */
  const UriTable: seq<Sub> := [
    Sub("%11", ','),
    Sub("%12", '\n'),
    Sub("%20", ' '),
    Sub("%22", '"'),
    Sub("%23", '#'),
    Sub("%27", '\''),
    Sub("%28", '('),
    Sub("%29", ')'),
    Sub("%2B", '+'),
    Sub("%2D", '-'),
    Sub("%2E", '.'),
    Sub("%2F", '/'),
    Sub("%3A", ':'),
    Sub("%7C", '|')
  ]

  /** Applies the entries of `t` in order, each to the whole text. */
  function ApplyTable(s: string, t: seq<Sub>): (r: string)
    ensures |r| <= |s|
    decreases |t|
  {
    if |t| == 0 then s else ApplyTable(Replace(s, t[0].enc, [t[0].dec]), t[1..])
  }

  function Dehexify(data: string): (r: string)
    ensures |r| <= |data|
  {
    ApplyTable(ApplyTable(data, HexTable), UriTable)
  }

  // ---------------------------------------------------------------------------
  // The first table is a character map
  // ---------------------------------------------------------------------------

  /** What the first table does, written as a map on single characters. */
  function ControlChar(c: char): char {
    if c == '\U{1c}' || c == '\U{11}' then ','
    else if c == '\U{12}' then '\n'
    else c
  }

  function MapControls(s: string): (r: string)
    ensures |r| == |s|
  {
    seq(|s|, i requires 0 <= i < |s| => ControlChar(s[i]))
  }

  lemma {:induction false} ApplyConcat(s: string, a: seq<Sub>, b: seq<Sub>)
    ensures ApplyTable(s, a + b) == ApplyTable(ApplyTable(s, a), b)
    decreases |a|
  {
    if |a| > 0 {
      assert (a + b)[1..] == a[1..] + b;
      ApplyConcat(Replace(s, a[0].enc, [a[0].dec]), a[1..], b);
    } else {
      assert a + b == b;
    }
  }

  /** A table of entries that map a code to itself changes nothing. */
  lemma {:induction false} ApplyIdentities(s: string, t: seq<Sub>)
    requires forall i :: 0 <= i < |t| ==> t[i].enc == [t[i].dec]
    ensures ApplyTable(s, t) == s
    decreases |t|
  {
    if |t| > 0 {
      ReplaceSelf(s, t[0].enc);
      assert Replace(s, t[0].enc, [t[0].dec]) == s;
      ApplyIdentities(s, t[1..]);
    }
  }

  /** The first table changes `\x1c` and `\x11` into a comma and `\x12` into a
      line feed, and leaves every other character as it is. */
  lemma HexTableIsControlMap(s: string)
    ensures ApplyTable(s, HexTable) == MapControls(s)
  {
    ApplyConcat(s, HexControls, HexSelf);
    var s3 := ApplyTable(s, HexControls);
    HexControlsMap(s);
    HexSelfIdentities();
    ApplyIdentities(s3, HexSelf);
  }

  lemma HexSelfIdentities()
    ensures forall i :: 0 <= i < |HexSelf| ==> HexSelf[i].enc == [HexSelf[i].dec]
  {
  }

  lemma HexControlsMap(s: string)
    ensures ApplyTable(s, HexControls) == MapControls(s)
  {
    var s1 := Replace(s, "\U{1c}", ",");
    var s2 := Replace(s1, "\U{11}", ",");
    var s3 := Replace(s2, "\U{12}", "\n");
    assert HexControls[1..][1..][1..] == [];
    assert ApplyTable(s, HexControls) == s3;
    ReplaceCharIsSubst(s, '\U{1c}', ',');
    ReplaceCharIsSubst(s1, '\U{11}', ',');
    ReplaceCharIsSubst(s2, '\U{12}', '\n');
    assert s3 == MapControls(s);
  }

  // ---------------------------------------------------------------------------
  // Text without any code is left alone; the output holds no code
  // ---------------------------------------------------------------------------

  predicate IsControl(c: char) {
    c == '\U{1c}' || c == '\U{11}' || c == '\U{12}'
  }

  /** Neither table finds anything to replace in `s`. */
  predicate Clean(s: string) {
    && (forall i :: 0 <= i < |s| ==> !IsControl(s[i]))
    && (forall j :: 0 <= j < |UriTable| ==> !Occurs(s, UriTable[j].enc))
  }

  /** A character that can appear in a second-table code. */
  predicate CodeChar(c: char) {
    c == '%' || ('0' <= c <= '9') || ('A' <= c <= 'F')
  }

  /** Codes are three code characters; replacements one character that is
      neither a code character nor a control character. */
  predicate WellSeparated(t: seq<Sub>) {
    forall i :: 0 <= i < |t| ==>
      && |t[i].enc| == 3
      && (forall k :: 0 <= k < 3 ==> CodeChar(t[i].enc[k]))
      && !CodeChar(t[i].dec) && !IsControl(t[i].dec)
  }

  lemma UriTableWellSeparated()
    ensures WellSeparated(UriTable)
  {
  }

  lemma {:induction false} ApplyAbsent(s: string, t: seq<Sub>)
    requires forall j :: 0 <= j < |t| ==> !Occurs(s, t[j].enc)
    ensures ApplyTable(s, t) == s
    decreases |t|
  {
    if |t| > 0 {
      ReplaceAbsent(s, t[0].enc, [t[0].dec]);
      ApplyAbsent(s, t[1..]);
    }
  }

  /** Applying a well-separated table never creates a code occurrence. */
  lemma {:induction false} ApplyPreserves(s: string, t: seq<Sub>, p: string)
    requires WellSeparated(t)
    requires |p| == 3 && forall k :: 0 <= k < 3 ==> CodeChar(p[k])
    requires !Occurs(s, p)
    ensures !Occurs(ApplyTable(s, t), p)
    decreases |t|
  {
    if |t| > 0 {
      var c := t[0].dec;
      var s1 := Replace(s, t[0].enc, [c]);
      if Occurs(s1, p) {
        var i :| 0 <= i <= |s1| && PrefixAt(s1, i, p);
        ReplaceOccurs(s, t[0].enc, c, p, i);
        assert false;
      }
      ApplyPreserves(s1, t[1..], p);
    }
  }

  /** After a well-separated table, none of its codes occurs. */
  lemma {:induction false} ApplyRemoves(s: string, t: seq<Sub>)
    requires WellSeparated(t)
    ensures forall j :: 0 <= j < |t| ==> !Occurs(ApplyTable(s, t), t[j].enc)
    decreases |t|
  {
    if |t| > 0 {
      var c := t[0].dec;
      var s1 := Replace(s, t[0].enc, [c]);
      ApplyRemoves(s1, t[1..]);
      if Occurs(s1, t[0].enc) {
        var i :| 0 <= i <= |s1| && PrefixAt(s1, i, t[0].enc);
        ReplaceOccurs(s, t[0].enc, c, t[0].enc, i);
        assert false;
      }
      ApplyPreserves(s1, t[1..], t[0].enc);
      forall j | 0 <= j < |t|
        ensures !Occurs(ApplyTable(s, t), t[j].enc)
      {
        if j > 0 {
          assert t[j] == t[1..][j - 1];
        }
      }
    }
  }

  /** A well-separated table introduces no control character. */
  lemma {:induction false} ApplyKeepsControlFree(s: string, t: seq<Sub>)
    requires WellSeparated(t)
    requires forall i :: 0 <= i < |s| ==> !IsControl(s[i])
    ensures forall i :: 0 <= i < |ApplyTable(s, t)| ==> !IsControl(ApplyTable(s, t)[i])
    decreases |t|
  {
    if |t| > 0 {
      var c := t[0].dec;
      var s1 := Replace(s, t[0].enc, [c]);
      forall i | 0 <= i < |s1|
        ensures !IsControl(s1[i])
      {
        ReplaceNoNewChar(s, t[0].enc, c, s1[i]);
      }
      ApplyKeepsControlFree(s1, t[1..]);
    }
  }

  /** Text holding no code of either table is returned unchanged. */
  lemma DehexifyUnchanged(s: string)
    requires Clean(s)
    ensures Dehexify(s) == s
  {
    HexTableIsControlMap(s);
    assert MapControls(s) == s;
    ApplyAbsent(s, UriTable);
  }

  /** The output of `dehexify` holds no code of either table. */
  lemma DehexifyClean(s: string)
    ensures Clean(Dehexify(s))
  {
    var h := ApplyTable(s, HexTable);
    HexTableIsControlMap(s);
    assert forall i :: 0 <= i < |h| ==> !IsControl(h[i]);
    UriTableWellSeparated();
    ApplyKeepsControlFree(h, UriTable);
    ApplyRemoves(h, UriTable);
  }

  /** Decoding twice is decoding once. */
  lemma DehexifyIdempotent(s: string)
    ensures Dehexify(Dehexify(s)) == Dehexify(s)
  {
    DehexifyClean(s);
    DehexifyUnchanged(Dehexify(s));
  }
}
