/** The legacy wire format of the `/ess` endpoint (`ESM._format_params` and
    `ESM._format_resp`). A request body is
    `Request=API%13<cmd>%13%14` followed by `key%13value%13` pairs joined by
    `%14` and closed by one more `%14`; a response carries the same pair layout
    after a `Response=` marker. `%13` separates the words of a field and `%14`
    separates fields. */
module Codec {
  import opened Wrappers
  import opened Text
  import Dehex

  const FieldSep: string := "%13"
  const PairSep: string := "%14"
  const Marker: string := "Response="

  /** One keyword argument of a legacy call; `None` stands for Python's `None`. */
  datatype Param = Param(key: string, value: Option<string>)

  /** A decoded (field name, value) pair. */
  type Field = (string, string)

  // ---------------------------------------------------------------------------
  // Encoding
  // ---------------------------------------------------------------------------

  /** The parameters whose value is not `None`, in their original order. */
  function Surviving(params: seq<Param>): (fs: seq<Field>)
    ensures |fs| <= |params|
    ensures forall i :: 0 <= i < |fs| ==>
      exists j :: 0 <= j < |params| && params[j] == Param(fs[i].0, Some(fs[i].1))
    ensures (forall j :: 0 <= j < |params| ==> params[j].value.None?) <==> |fs| == 0
  {
    if |params| == 0 then []
    else
      var rest := Surviving(params[1..]);
      assert forall i :: 0 <= i < |rest| ==>
        exists j :: 0 <= j < |params| && params[j] == Param(rest[i].0, Some(rest[i].1)) by {
        forall i | 0 <= i < |rest|
          ensures exists j :: 0 <= j < |params| && params[j] == Param(rest[i].0, Some(rest[i].1))
        {
          var j :| 0 <= j < |params[1..]| && params[1..][j] == Param(rest[i].0, Some(rest[i].1));
          assert params[j + 1] == params[1..][j];
        }
      }
      match params[0].value
      case None => rest
      case Some(v) => [(params[0].key, v)] + rest
  }

  /** Filtering commutes with concatenation: the kept pairs come in the order
      of their parameters, each exactly once. */
  lemma {:induction false} SurvivingConcat(a: seq<Param>, b: seq<Param>)
    ensures Surviving(a + b) == Surviving(a) + Surviving(b)
  {
    if |a| > 0 {
      assert (a + b)[0] == a[0];
      assert (a + b)[1..] == a[1..] + b;
      SurvivingConcat(a[1..], b);
    } else {
      assert a + b == b;
    }
  }

  /** One parameter is kept, as its pair, exactly when it has a value. */
  lemma SurvivingOne(p: Param)
    ensures p.value.Some? ==> Surviving([p]) == [(p.key, p.value.value)]
    ensures p.value.None? ==> Surviving([p]) == []
  {
    assert [p][1..] == [];
  }

  function PairText(f: Field): string {
    f.0 + FieldSep + f.1 + FieldSep
  }

  function PairTexts(fs: seq<Field>): (ts: seq<string>)
    ensures |ts| == |fs|
  {
    if |fs| == 0 then [] else [PairText(fs[0])] + PairTexts(fs[1..])
  }

  function RequestPrefix(cmd: string): string {
    "Request=API" + FieldSep + cmd + FieldSep + PairSep
  }

  /** `ESM._format_params(cmd, **params)`. */
  function Encode(cmd: string, params: seq<Param>): (body: string)
    ensures RequestPrefix(cmd) <= body
    ensures body == RequestPrefix(cmd) <==> |Surviving(params)| == 0
  {
    var joined := Join(PairSep, PairTexts(Surviving(params)));
    if |joined| > 0 then RequestPrefix(cmd) + joined + PairSep
    else RequestPrefix(cmd)
  }

  /** The pair section independently of `join`: every pair followed by `%14`. */
  function PairSection(fs: seq<Field>): string {
    if |fs| == 0 then "" else PairText(fs[0]) + PairSep + PairSection(fs[1..])
  }

  lemma {:induction false} JoinThenSep(fs: seq<Field>)
    requires |fs| > 0
    ensures Join(PairSep, PairTexts(fs)) + PairSep == PairSection(fs)
  {
    var ts := PairTexts(fs);
    if |fs| > 1 {
      JoinThenSep(fs[1..]);
      assert ts[1..] == PairTexts(fs[1..]);
    }
  }

  /** The body is the fixed prefix followed by one `key%13value%13%14` group
      per surviving parameter; `None` values leave no trace. */
  lemma EncodeLayout(cmd: string, params: seq<Param>)
    ensures Encode(cmd, params) == RequestPrefix(cmd) + PairSection(Surviving(params))
  {
    var fs := Surviving(params);
    var joined := Join(PairSep, PairTexts(fs));
    if |fs| > 0 {
      JoinThenSep(fs);
      PairTextsAt(fs, 0);
      JoinNonEmpty(PairTexts(fs));
      assert Encode(cmd, params) == RequestPrefix(cmd) + joined + PairSep;
      assert RequestPrefix(cmd) + joined + PairSep == RequestPrefix(cmd) + (joined + PairSep);
    } else {
      assert PairTexts(fs) == [];
      assert RequestPrefix(cmd) + PairSection(fs) == RequestPrefix(cmd);
    }
  }

  lemma JoinNonEmpty(xs: seq<string>)
    requires |xs| > 0 && |xs[0]| > 0
    ensures |Join(PairSep, xs)| > 0
  {
  }

  /** Dropping the `None` entries first gives the same body. */
  lemma EncodeIgnoresNone(cmd: string, params: seq<Param>)
    ensures Encode(cmd, params) == Encode(cmd, Defined(params))
  {
    SurvivingDefined(params);
  }

  /** The parameters with a value, as parameters. */
  function Defined(params: seq<Param>): seq<Param> {
    if |params| == 0 then []
    else if params[0].value.None? then Defined(params[1..])
    else [params[0]] + Defined(params[1..])
  }

  lemma {:induction false} SurvivingDefined(params: seq<Param>)
    ensures Surviving(Defined(params)) == Surviving(params)
  {
    if |params| > 0 {
      SurvivingDefined(params[1..]);
      if params[0].value.Some? {
        assert Defined(params)[1..] == Defined(params[1..]);
      }
    }
  }

  // ---------------------------------------------------------------------------
  // Percent decoding
  // ---------------------------------------------------------------------------

  function HexValue(c: char): (v: Option<nat>)
    ensures v.Some? ==> v.value < 16
  {
    if '0' <= c <= '9' then Some(c as nat - '0' as nat)
    else if 'a' <= c <= 'f' then Some(c as nat - 'a' as nat + 10)
    else if 'A' <= c <= 'F' then Some(c as nat - 'A' as nat + 10)
    else None
  }

  /** `urllib.parse.unquote`, for escapes of ASCII characters: `%XY` with two
      hexadecimal digits (either case) naming a code below 0x80 becomes that
      character; every other character is copied. */
  function Unquote(s: string): (r: string)
    ensures |r| <= |s|
  {
    if |s| == 0 then ""
    else if |s| >= 3 && s[0] == '%' && HexValue(s[1]).Some? && HexValue(s[2]).Some?
            && HexValue(s[1]).value * 16 + HexValue(s[2]).value < 128 then
      [(HexValue(s[1]).value * 16 + HexValue(s[2]).value) as char] + Unquote(s[3..])
    else [s[0]] + Unquote(s[1..])
  }

  /** Text without a percent sign is not changed by percent decoding. */
  lemma {:induction false} UnquoteNoPercent(s: string)
    requires '%' !in s
    ensures Unquote(s) == s
  {
    if |s| > 0 {
      assert '%' !in s[1..];
      UnquoteNoPercent(s[1..]);
      assert s == [s[0]] + s[1..];
    }
  }

  const HexDigits: string := "0123456789ABCDEF"

  /** Percent-encoding of ASCII text, the inverse partner of `Unquote`. */
  function Quote(s: string): (r: string)
    requires forall i :: 0 <= i < |s| ==> s[i] as int < 128
    ensures |r| == 3 * |s|
  {
    if |s| == 0 then ""
    else
      var c := s[0] as int;
      ['%', HexDigits[c / 16], HexDigits[c % 16]] + Quote(s[1..])
  }

  lemma HexDigitValue(n: nat)
    requires n < 16
    ensures HexValue(HexDigits[n]) == Some(n)
  {
  }

  lemma {:induction false} UnquoteQuote(s: string)
    requires forall i :: 0 <= i < |s| ==> s[i] as int < 128
    ensures Unquote(Quote(s)) == s
  {
    if |s| > 0 {
      var c := s[0] as int;
      HexDigitValue(c / 16);
      HexDigitValue(c % 16);
      var q := Quote(s);
      assert q[3..] == Quote(s[1..]);
      UnquoteQuote(s[1..]);
      assert s == [s[0]] + s[1..];
    }
  }

  // ---------------------------------------------------------------------------
  // Decoding
  // ---------------------------------------------------------------------------

  datatype DecodeError =
    | MissingMarker              // `re.search` found nothing: `None.group` raises
    | EmptyToken(token: string)  // a token of only `%13` codes: `pair[0]` raises

  /** The text after the first `Response=`, up to the end of that line. */
  function Payload(resp: string): (r: Option<string>)
    ensures r.None? <==> !Occurs(resp, Marker)
    ensures r.Some? ==> '\n' !in r.value
  {
    match Find(resp, Marker)
    case None => None
    case Some(i) => Some(TakeLine(resp[i + |Marker|..]))
  }

  /** The payload starts right after the first marker and runs to the end of
      its line. */
  lemma PayloadFirstLine(resp: string, i: nat)
    requires PrefixAt(resp, i, Marker)
    requires forall j :: 0 <= j < i ==> !PrefixAt(resp, j, Marker)
    ensures Payload(resp) == Some(TakeLine(resp[i + |Marker|..]))
  {
    assert Occurs(resp, Marker);
  }

  /** The `%14`-separated tokens of a payload. */
  function Tokens(payload: string): seq<string> {
    Words(Replace(payload, PairSep, " "))
  }

  /** `ITEMS` goes through the two-table substitution, every other field
      through percent decoding. */
  function DecodeValue(key: string, raw: string): (r: string)
    ensures |r| <= |raw|
    ensures key == "ITEMS" ==> Dehex.Clean(r)
    ensures key != "ITEMS" && '%' !in raw ==> r == raw
  {
    if key == "ITEMS" then
      Dehex.DehexifyClean(raw);
      Dehex.Dehexify(raw)
    else
      var u := Unquote(raw);
      assert '%' !in raw ==> u == raw by {
        if '%' !in raw { UnquoteNoPercent(raw); }
      }
      u
  }

  /** One token: field name = first `%13`-separated word, raw value = last. */
  function DecodeToken(token: string): (r: Result<Field, DecodeError>)
    ensures r.Failure? <==> |Words(Replace(token, FieldSep, " "))| == 0
    ensures r.Failure? ==> r.error == EmptyToken(token)
  {
    var ws := Words(Replace(token, FieldSep, " "));
    if |ws| == 0 then Failure(EmptyToken(token))
    else Success((ws[0], DecodeValue(ws[0], ws[|ws| - 1])))
  }

  /** The tokens in order: the first token that fails ends the decoding with
      its error, and otherwise every token gives its field. */
  function DecodeTokens(tokens: seq<string>): (r: Result<seq<Field>, DecodeError>)
    ensures r.Success? <==> forall i :: 0 <= i < |tokens| ==> DecodeToken(tokens[i]).Success?
    ensures r.Success? ==> |r.value| == |tokens|
    ensures r.Success? ==> forall i :: 0 <= i < |tokens| ==> r.value[i] == DecodeToken(tokens[i]).value
    ensures r.Failure? ==> FirstFailure(tokens, r.error)
  {
    if |tokens| == 0 then Success([])
    else
      match DecodeToken(tokens[0])
      case Failure(e) =>
        FailsFirstAtHead(tokens, DecodeToken, e);
        Failure(e)
      case Success(f) =>
        match DecodeTokens(tokens[1..])
        case Failure(e) =>
          FirstFailureShift(tokens, e);
          Failure(e)
        case Success(fs) =>
          DecodedShift(tokens, DecodeToken, f, fs);
          Success([f] + fs)
  }

  /** Prepending a decoded element to decoded elements: every element of the
      longer list decodes, to the matching entry. */
  lemma DecodedShift<T, U, E>(xs: seq<T>, g: T -> Result<U, E>, y: U, ys: seq<U>)
    requires |xs| > 0 && g(xs[0]) == Success(y)
    requires |ys| == |xs| - 1
    requires forall i :: 0 <= i < |xs[1..]| ==> g(xs[1..][i]).Success? && ys[i] == g(xs[1..][i]).value
    ensures forall i :: 0 <= i < |xs| ==> g(xs[i]).Success? && ([y] + ys)[i] == g(xs[i]).value
  {
    var tail := xs[1..];
    forall i | 0 <= i < |xs|
      ensures g(xs[i]).Success? && ([y] + ys)[i] == g(xs[i]).value
    {
      if i > 0 {
        assert xs[i] == tail[i - 1];
        assert ([y] + ys)[i] == ys[i - 1];
      }
    }
  }

  /** `e` is the error of a token that fails after tokens that all decode. */
  predicate FirstFailure(tokens: seq<string>, e: DecodeError) {
    exists i :: 0 <= i < |tokens| && FailsFirstAt(tokens, DecodeToken, i, e)
  }

  /** Element `i` is the first on which `g` fails, and it fails with `e`. */
  predicate FailsFirstAt<T, U, E(==)>(xs: seq<T>, g: T -> Result<U, E>, i: int, e: E) {
    && 0 <= i < |xs|
    && g(xs[i]).Failure? && g(xs[i]).error == e
    && forall j :: 0 <= j < i ==> g(xs[j]).Success?
  }

  lemma FailsFirstAtHead<T, U, E>(xs: seq<T>, g: T -> Result<U, E>, e: E)
    requires |xs| > 0 && g(xs[0]).Failure? && g(xs[0]).error == e
    ensures FailsFirstAt(xs, g, 0, e)
  {
  }

  lemma FirstFailureShift(tokens: seq<string>, e: DecodeError)
    requires |tokens| > 0 && DecodeToken(tokens[0]).Success?
    requires FirstFailure(tokens[1..], e)
    ensures FirstFailure(tokens, e)
  {
    var i :| 0 <= i < |tokens[1..]| && FailsFirstAt(tokens[1..], DecodeToken, i, e);
    FailsFirstAtShift(tokens, DecodeToken, i, e);
  }

  /** Behind an element that succeeds, the first failure moves one place on. */
  lemma FailsFirstAtShift<T, U, E>(xs: seq<T>, g: T -> Result<U, E>, i: int, e: E)
    requires |xs| > 0 && g(xs[0]).Success?
    requires FailsFirstAt(xs[1..], g, i, e)
    ensures FailsFirstAt(xs, g, i + 1, e)
  {
    var tail := xs[1..];
    assert xs[i + 1] == tail[i];
    forall j | 1 <= j < i + 1
      ensures g(xs[j]).Success?
    {
      assert xs[j] == tail[j - 1];
    }
  }

  /** Fields stored one after the other into a dict: a later duplicate key
      overwrites an earlier one. */
  function ToMap(fs: seq<Field>): (m: map<string, string>)
    ensures forall k :: k in m <==> exists i :: 0 <= i < |fs| && fs[i].0 == k
  {
    if |fs| == 0 then map[]
    else
      var init := fs[..|fs| - 1];
      var last := fs[|fs| - 1];
      var m := ToMap(init);
      assert forall i :: 0 <= i < |init| ==> init[i] == fs[i];
      m[last.0 := last.1]
  }

  /** The value stored under a key is the one of its last field. */
  lemma {:induction false} ToMapLastWins(fs: seq<Field>, i: nat)
    requires i < |fs|
    requires forall j :: i < j < |fs| ==> fs[j].0 != fs[i].0
    ensures fs[i].0 in ToMap(fs) && ToMap(fs)[fs[i].0] == fs[i].1
    decreases |fs|
  {
    if i < |fs| - 1 {
      var init := fs[..|fs| - 1];
      ToMapLastWins(init, i);
      assert init[i] == fs[i];
    }
  }

  /** `ESM._format_resp`. */
  function Decode(resp: string): (r: Result<map<string, string>, DecodeError>)
    ensures r == Failure(MissingMarker) <==> !Occurs(resp, Marker)
  {
    match Payload(resp)
    case None => Failure(MissingMarker)
    case Some(payload) =>
      match DecodeTokens(Tokens(payload))
      case Failure(e) =>
        assert e.EmptyToken?;
        Failure(e)
      case Success(fs) => Success(ToMap(fs))
  }

  // ---------------------------------------------------------------------------
  // Round trip
  // ---------------------------------------------------------------------------

  /** Text that survives the wire unchanged: non-empty, no blank (in Python's
      wide sense) and no percent sign, hence no `%13` or `%14`. */
  predicate Plain(s: string) {
    |s| > 0 && NoSpace(s) && '%' !in s
  }

  /** Fields the legacy codec can carry and give back. */
  predicate Transmissible(fs: seq<Field>) {
    && (forall i :: 0 <= i < |fs| ==> Plain(fs[i].0) && Plain(fs[i].1) && fs[i].0 != "ITEMS")
    && (forall i, j :: 0 <= i < j < |fs| ==> fs[i].0 != fs[j].0)
  }

  lemma PairTextPlain(f: Field)
    requires Plain(f.0) && Plain(f.1)
    ensures |PairText(f)| > 0 && NoSpace(PairText(f))
  {
    var t := PairText(f);
    assert t == f.0 + ("%13" + (f.1 + "%13"));
    forall i | 0 <= i < |t|
      ensures !IsSpace(t[i])
    {
      if i < |f.0| {
        assert t[i] == f.0[i];
      } else if i < |f.0| + 3 {
      } else if i < |f.0| + 3 + |f.1| {
        assert t[i] == f.1[i - |f.0| - 3];
      }
    }
  }

  /** No `%14` starts inside a pair text, whatever follows it. */
  lemma PairTextNoPairSep(f: Field, z: string)
    requires Plain(f.0) && Plain(f.1)
    ensures forall i :: 0 <= i < |PairText(f)| ==> !PrefixAt(PairText(f) + z, i, PairSep)
  {
    var t := PairText(f);
    var s := t + z;
    var a := |f.0|;
    var b := |f.0| + 3 + |f.1|;
    assert t == f.0 + ("%13" + (f.1 + "%13"));
    forall i | 0 <= i < |t|
      ensures !PrefixAt(s, i, PairSep)
    {
      if i + 3 <= |s| {
        var w := s[i..i + 3];
        assert w[0] == s[i] && w[2] == s[i + 2];
        if i < a {
          assert s[i] == f.0[i];
        } else if i == a || i == b {
          assert s[i + 2] == '3';
        } else if a + 3 <= i < b {
          assert s[i] == f.1[i - a - 3];
        } else {
          assert s[i] == '1' || s[i] == '3';
        }
      }
    }
  }

  lemma {:induction false} PairSectionSplits(fs: seq<Field>)
    requires forall i :: 0 <= i < |fs| ==> Plain(fs[i].0) && Plain(fs[i].1)
    ensures Replace(PairSection(fs), PairSep, " ") == Spaced(PairTexts(fs))
    ensures '\n' !in PairSection(fs)
  {
    if |fs| > 0 {
      var t := PairText(fs[0]);
      var rest := PairSection(fs[1..]);
      assert PairSection(fs) == t + (PairSep + rest);
      PairTextNoPairSep(fs[0], PairSep + rest);
      ReplaceKeepsPrefix(t, PairSep + rest, PairSep, " ");
      ReplaceAtStart(PairSep, rest, " ");
      PairSectionSplits(fs[1..]);
      PairTextPlain(fs[0]);
      assert forall i :: 0 <= i < |t| ==> t[i] != '\n';
    }
  }

  lemma DecodePairText(f: Field)
    requires Plain(f.0) && Plain(f.1) && f.0 != "ITEMS"
    ensures DecodeToken(PairText(f)) == Success(f)
  {
    var (k, v) := f;
    PairTextSpaced(k, v);
    WordsSpaced([k, v]);
    UnquoteNoPercent(v);
  }

  /** With `%13` read as a space, a pair text is its key and value, each
      followed by a space. */
  lemma PairTextSpaced(k: string, v: string)
    requires '%' !in k && '%' !in v
    ensures Replace(PairText((k, v)), FieldSep, " ") == Spaced([k, v])
  {
    var t := PairText((k, v));
    assert t == k + (FieldSep + (v + FieldSep));
    PercentFreePrefix(k, FieldSep + (v + FieldSep), FieldSep);
    ReplaceKeepsPrefix(k, FieldSep + (v + FieldSep), FieldSep, " ");
    ReplaceAtStart(FieldSep, v + FieldSep, " ");
    ValueSpaced(v);
    assert Replace(FieldSep + (v + FieldSep), FieldSep, " ") == " " + (v + " ");
    assert Spaced([v]) == v + " " by { assert [v][1..] == []; }
    assert Spaced([k, v]) == k + " " + Spaced([v]) by { assert [k, v][1..] == [v]; }
  }

  lemma ValueSpaced(v: string)
    requires '%' !in v
    ensures Replace(v + FieldSep, FieldSep, " ") == v + " "
  {
    PercentFreePrefix(v, FieldSep, FieldSep);
    ReplaceKeepsPrefix(v, FieldSep, FieldSep, " ");
    assert FieldSep == FieldSep + "";
    ReplaceAtStart(FieldSep, "", " ");
    assert Replace(FieldSep, FieldSep, " ") == " ";
  }

  /** No code starting with `%` starts inside text free of `%`. */
  lemma PercentFreePrefix(t: string, z: string, p: string)
    requires '%' !in t && |p| > 0 && p[0] == '%'
    ensures forall i :: 0 <= i < |t| ==> !PrefixAt(t + z, i, p)
  {
    forall i | 0 <= i < |t|
      ensures !PrefixAt(t + z, i, p)
    {
      if i + |p| <= |t + z| {
        assert (t + z)[i..i + |p|][0] == t[i];
      }
    }
  }

  lemma {:induction false} DecodePairTexts(fs: seq<Field>)
    requires forall i :: 0 <= i < |fs| ==> Plain(fs[i].0) && Plain(fs[i].1) && fs[i].0 != "ITEMS"
    ensures DecodeTokens(PairTexts(fs)) == Success(fs)
  {
    if |fs| > 0 {
      DecodePairText(fs[0]);
      DecodePairTexts(fs[1..]);
      assert PairTexts(fs)[1..] == PairTexts(fs[1..]);
      assert fs == [fs[0]] + fs[1..];
    }
  }

  /** Decoding `Response=` followed by the pair section of an encoded request
      gives back exactly the surviving parameters. */
  lemma RoundTrip(cmd: string, params: seq<Param>)
    requires Transmissible(Surviving(params))
    ensures var body := Encode(cmd, params);
            var r := Decode(Marker + body[|RequestPrefix(cmd)|..]);
            && r.Success?
            && (forall k :: k in r.value <==> exists p :: p in params && p.key == k && p.value.Some?)
            && (forall p :: p in params && p.value.Some? ==> r.value[p.key] == p.value.value)
  {
    var fs := Surviving(params);
    EncodeLayout(cmd, params);
    assert Encode(cmd, params)[|RequestPrefix(cmd)|..] == PairSection(fs);
    DecodeSection(fs);
    SurvivingMap(params);
  }

  /** With distinct keys, the dict of the surviving fields holds exactly the
      parameters that have a value. */
  lemma SurvivingMap(params: seq<Param>)
    requires Transmissible(Surviving(params))
    ensures var m := ToMap(Surviving(params));
            && (forall k :: k in m <==> exists p :: p in params && p.key == k && p.value.Some?)
            && (forall p :: p in params && p.value.Some? ==> m[p.key] == p.value.value)
  {
    var fs := Surviving(params);
    var m := ToMap(fs);
    forall k | k in m
      ensures exists p :: p in params && p.key == k && p.value.Some?
    {
      var i :| 0 <= i < |fs| && fs[i].0 == k;
      var j :| 0 <= j < |params| && params[j] == Param(fs[i].0, Some(fs[i].1));
      assert params[j] in params;
    }
    forall p | p in params && p.value.Some?
      ensures p.key in m && m[p.key] == p.value.value
    {
      var j :| 0 <= j < |params| && params[j] == p;
      SurvivingComplete(params, j);
      var i :| 0 <= i < |fs| && fs[i] == (p.key, p.value.value);
      ToMapLastWins(fs, i);
    }
  }

  /** Every parameter with a value shows up among the surviving fields. */
  lemma {:induction false} SurvivingComplete(params: seq<Param>, j: nat)
    requires j < |params| && params[j].value.Some?
    ensures (params[j].key, params[j].value.value) in Surviving(params)
    decreases j
  {
    if j > 0 {
      SurvivingComplete(params[1..], j - 1);
      assert params[1..][j - 1] == params[j];
    }
  }

  /** Decoding a response whose payload is a pair section. */
  lemma DecodeSection(fs: seq<Field>)
    requires Transmissible(fs)
    ensures Decode(Marker + PairSection(fs)) == Success(ToMap(fs))
  {
    var sec := PairSection(fs);
    var resp := Marker + sec;
    assert PrefixAt(resp, 0, Marker);
    assert resp[|Marker|..] == sec;
    PairSectionSplits(fs);
    assert TakeLine(sec) == sec;
    assert Payload(resp) == Some(sec);
    forall i | 0 <= i < |fs|
      ensures |PairTexts(fs)[i]| > 0 && NoSpace(PairTexts(fs)[i])
    {
      PairTextsAt(fs, i);
      PairTextPlain(fs[i]);
    }
    WordsSpaced(PairTexts(fs));
    DecodePairTexts(fs);
  }

  lemma {:induction false} PairTextsAt(fs: seq<Field>, i: nat)
    requires i < |fs|
    ensures PairTexts(fs)[i] == PairText(fs[i])
  {
    if i > 0 {
      PairTextsAt(fs[1..], i - 1);
    }
  }

  /** Words each followed by `%13`: the layout of a token. */
  function FieldText(ws: seq<string>): string {
    if |ws| == 0 then "" else ws[0] + FieldSep + FieldText(ws[1..])
  }

  /** With `%13` read as a space, the token is its words, each followed by a
      space. */
  lemma {:induction false} FieldTextSpaced(ws: seq<string>)
    requires forall i :: 0 <= i < |ws| ==> '%' !in ws[i]
    ensures Replace(FieldText(ws), FieldSep, " ") == Spaced(ws)
  {
    if |ws| > 0 {
      var rest := FieldText(ws[1..]);
      assert FieldText(ws) == ws[0] + (FieldSep + rest);
      PercentFreePrefix(ws[0], FieldSep + rest, FieldSep);
      ReplaceKeepsPrefix(ws[0], FieldSep + rest, FieldSep, " ");
      ReplaceAtStart(FieldSep, rest, " ");
      FieldTextSpaced(ws[1..]);
    }
  }

  /** A token of plain words decodes to its first word as the key and its last
      word, decoded, as the value; the words in between are ignored. */
  lemma DecodeFieldText(ws: seq<string>)
    requires |ws| > 0 && forall i :: 0 <= i < |ws| ==> Plain(ws[i])
    ensures DecodeToken(FieldText(ws)) == Success((ws[0], DecodeValue(ws[0], ws[|ws| - 1])))
  {
    FieldTextSpaced(ws);
    WordsSpaced(ws);
  }

  /** `A%13B%13C%13` decodes to key `A` with value `C`: the middle word is lost. */
  lemma ThreeWordToken(a: string, b: string, c: string)
    requires Plain(a) && Plain(b) && Plain(c) && a != "ITEMS"
    ensures DecodeToken(a + FieldSep + b + FieldSep + c + FieldSep) == Success((a, c))
  {
    var ws := [a, b, c];
    assert ws[1..] == [b, c] && ws[1..][1..] == [c] && ws[1..][1..][1..] == [];
    assert FieldText([c]) == c + FieldSep + "";
    assert FieldText([b, c]) == b + FieldSep + FieldText([c]);
    assert FieldText(ws) == a + FieldSep + FieldText([b, c]);
    assert FieldText(ws) == a + FieldSep + b + FieldSep + c + FieldSep;
    DecodeFieldText(ws);
    UnquoteNoPercent(c);
  }

  // ---------------------------------------------------------------------------
  // Decoder rules on single tokens and a worked response
  // ---------------------------------------------------------------------------

  /** A token with an empty value word, `K%13%13`, takes its key as value. */
  lemma KeyOnlyToken(k: string)
    requires Plain(k) && k != "ITEMS"
    ensures DecodeToken(k + FieldSep + FieldSep) == Success((k, k))
  {
    var t := k + FieldSep + FieldSep;
    assert t == k + (FieldSep + FieldSep);
    PercentFreePrefix(k, FieldSep + FieldSep, FieldSep);
    ReplaceKeepsPrefix(k, FieldSep + FieldSep, FieldSep, " ");
    ReplaceAtStart(FieldSep, FieldSep, " ");
    assert FieldSep == FieldSep + "";
    ReplaceAtStart(FieldSep, "", " ");
    assert Replace(t, FieldSep, " ") == k + " " + " ";
    WordsCons(k, " ");
    assert Words(" ") == [];
    UnquoteNoPercent(k);
  }

  /** `Response=ID%1342%13%14NAME%13Foo%13%14` decodes to ID = 42, NAME = Foo. */
  lemma WorkedDecode()
    ensures Decode("Response=ID%1342%13%14NAME%13Foo%13%14") == Success(map["ID" := "42", "NAME" := "Foo"])
  {
    var fs: seq<Field> := [("ID", "42"), ("NAME", "Foo")];
    WorkedText();
    PlainWord("ID");
    PlainWord("42");
    PlainWord("NAME");
    PlainWord("Foo");
    DecodeSection(fs);
    WorkedMap();
  }

  lemma WorkedText()
    ensures Marker + PairSection([("ID", "42"), ("NAME", "Foo")]) == "Response=ID%1342%13%14NAME%13Foo%13%14"
  {
    var f1: Field := ("ID", "42");
    var f2: Field := ("NAME", "Foo");
    assert [f1, f2][1..] == [f2];
    assert [f2][1..] == [];
    assert PairSection([f2]) == "NAME%13Foo%13%14";
  }

  lemma WorkedMap()
    ensures ToMap([("ID", "42"), ("NAME", "Foo")]) == map["ID" := "42", "NAME" := "Foo"]
  {
    var f1: Field := ("ID", "42");
    var f2: Field := ("NAME", "Foo");
    assert [f1, f2][..1] == [f1];
    assert [f1][..0] == [];
  }

  /** Letters and digits are plain. */
  lemma PlainWord(w: string)
    requires |w| > 0
    requires forall i :: 0 <= i < |w| ==> ('0' <= w[i] <= '9') || ('A' <= w[i] <= 'Z') || ('a' <= w[i] <= 'z')
    ensures Plain(w)
  {
  }
}
