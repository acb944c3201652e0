/** The control logic of game/static/plot.js: clamping the requested window of ranks, building
    the request for the values endpoint, and marking the upper bound as exhausted when fewer
    values came back than were asked for. Drawing with d3 is outside the model. */
module Plot {
  import opened Text
  import Game

  // ---------------------------------------------------------------------------------------
  // The clamp of inputHandler

  function Min(a: int, b: int): int { if a <= b then a else b }
  function Max(a: int, b: int): int { if a >= b then a else b }

  /** `(Math.max(Math.min(lower, upper, maxUpper), 1), Math.min(Math.max(lower, upper, 1), maxUpper))`. */
  function Clamp(lower: int, upper: int, maxUpper: int): (int, int)
  {
    (Max(Min(Min(lower, upper), maxUpper), 1), Min(Max(Max(lower, upper), 1), maxUpper))
  }

  /** With at least one rank available the clamped window is a non-empty range of ranks; with
      none, the window is inverted and asks for nothing. */
  lemma ClampBounds(lower: int, upper: int, maxUpper: int)
    ensures var (lo, hi) := Clamp(lower, upper, maxUpper);
      1 <= maxUpper ==> 1 <= lo <= hi <= maxUpper
    ensures var (lo, hi) := Clamp(lower, upper, maxUpper);
      maxUpper < 1 ==> lo == 1 && hi == maxUpper
  {
  }

  /** A window already within bounds is kept, so clamping twice is clamping once. */
  lemma ClampIdempotent(lower: int, upper: int, maxUpper: int)
    ensures 1 <= lower <= upper <= maxUpper ==> Clamp(lower, upper, maxUpper) == (lower, upper)
    ensures 1 <= maxUpper ==>
      var (lo, hi) := Clamp(lower, upper, maxUpper);
      Clamp(lo, hi, maxUpper) == (lo, hi)
  {
  }

  /** The two inputs play the same part: swapping them gives the same window. */
  lemma ClampSymmetric(lower: int, upper: int, maxUpper: int)
    ensures Clamp(lower, upper, maxUpper) == Clamp(upper, lower, maxUpper)
  {
  }

  // ---------------------------------------------------------------------------------------
  // The request of getValues

  function DigitChar(d: nat): char
    requires d < 10
  {
    "0123456789"[d]
  }

  /** The decimal text of a natural number, as JavaScript writes an integer. */
  function NatText(n: nat): (s: string)
    ensures |s| > 0
    ensures forall i :: 0 <= i < |s| ==> IsDigit(s[i])
  {
    if n < 10 then [DigitChar(n)] else NatText(n / 10) + [DigitChar(n % 10)]
  }

  function IntText(n: int): (s: string)
    ensures forall i :: 0 <= i < |s| ==> IsDigit(s[i]) || s[i] == '-'
  {
    if n < 0 then "-" + NatText(-n) else NatText(n)
  }

  /** Reading the decimal text back gives the number. */
  function NatValue(s: string): nat
    requires forall i :: 0 <= i < |s| ==> IsDigit(s[i])
  {
    if s == [] then 0
    else
      var c := s[|s| - 1];
      assert IsDigit(c);
      NatValue(s[..|s| - 1]) * 10 + (c as int - '0' as int)
  }

  lemma {:induction false} NatTextValue(n: nat)
    ensures NatValue(NatText(n)) == n
  {
    var s := NatText(n);
    if n >= 10 {
      NatTextValue(n / 10);
      assert s[..|s| - 1] == NatText(n / 10);
    }
  }

  /** `speechID || ""`: nothing for an absent or zero id. */
  function SpeechIdText(speechId: Option<int>): string
  {
    if speechId.None? || speechId.value == 0 then "" else IntText(speechId.value)
  }

  /** `[key, value].join("=")`. */
  function Field(key: string, value: string): string
  {
    key + "=" + value
  }

  const Keys: seq<string> := ["table", "speech_id", "type", "search", "order", "from", "to"]

  function Values(table: string, speechId: Option<int>, typ: string, search: string, order: string,
                  lower: int, upper: int): seq<string>
  {
    [table, SpeechIdText(speechId), typ, search, order, IntText(lower), IntText(upper)]
  }

  function Fields(keys: seq<string>, values: seq<string>): (fs: seq<string>)
    requires |keys| == |values|
    ensures |fs| == |keys|
    ensures forall i :: 0 <= i < |fs| ==> fs[i] == Field(keys[i], values[i])
  {
    if keys == [] then [] else [Field(keys[0], values[0])] + Fields(keys[1..], values[1..])
  }

  /** The URL requested: the seven fields, unescaped, joined by "&". */
  function ValuesUrl(table: string, speechId: Option<int>, typ: string, search: string, order: string,
                     lower: int, upper: int): string
  {
    "/values?" + Join(Fields(Keys, Values(table, speechId, typ, search, order, lower, upper)), "&")
  }

  /** How the server reads a query string: the pieces between "&", each cut at its first "=". */
  function ParseQuery(query: string): seq<(string, string)>
  {
    Pairs(Split(query, "&"))
  }

  function Pairs(pieces: seq<string>): (ps: seq<(string, string)>)
    ensures |ps| == |pieces|
  {
    if pieces == [] then []
    else
      var kv := Split(pieces[0], "=");
      [(kv[0], Join(kv[1..], "="))] + Pairs(pieces[1..])
  }

  /** Text that reaches the server as the page wrote it: free of the two query delimiters, of
      the `#` that starts a URL fragment, and of the `+` and `%` the server's unquoting decodes. */
  predicate Plain(v: string)
  {
    forall i :: 0 <= i < |v| ==> v[i] != '&' && v[i] != '=' && v[i] != '#' && v[i] != '+' && v[i] != '%'
  }

  lemma FieldPair(key: string, value: string)
    requires Plain(key) && Plain(value)
    ensures Split(Field(key, value), "=") == [key, value]
  {
    assert Field(key, value) == Join([key, value], "=");
    SplitJoin([key, value], "=");
  }

  lemma {:induction false} PairsOfFields(keys: seq<string>, values: seq<string>)
    requires |keys| == |values|
    requires forall i :: 0 <= i < |keys| ==> Plain(keys[i]) && Plain(values[i])
    ensures Pairs(Fields(keys, values)) == Zip(keys, values)
  {
    if keys != [] {
      FieldPair(keys[0], values[0]);
      assert [values[0]][1..] == [];
      PairsOfFields(keys[1..], values[1..]);
      assert Fields(keys, values)[1..] == Fields(keys[1..], values[1..]);
    }
  }

  function Zip(keys: seq<string>, values: seq<string>): (ps: seq<(string, string)>)
    requires |keys| == |values|
    ensures |ps| == |keys|
    ensures forall i :: 0 <= i < |ps| ==> ps[i] == (keys[i], values[i])
  {
    if keys == [] then [] else [(keys[0], values[0])] + Zip(keys[1..], values[1..])
  }

  lemma KeysPlain()
    ensures forall i :: 0 <= i < |Keys| ==> Plain(Keys[i])
  {
    assert Plain("table") && Plain("speech_id") && Plain("type") && Plain("search");
    assert Plain("order") && Plain("from") && Plain("to");
  }

  lemma DigitsPlain(v: string)
    requires forall i :: 0 <= i < |v| ==> IsDigit(v[i]) || v[i] == '-'
    ensures Plain(v)
  {
  }

  lemma ValuesPlain(table: string, speechId: Option<int>, typ: string, search: string, order: string,
                    lower: int, upper: int)
    requires Plain(table) && Plain(typ) && Plain(search) && Plain(order)
    ensures var vs := Values(table, speechId, typ, search, order, lower, upper);
      forall i :: 0 <= i < |vs| ==> Plain(vs[i])
  {
    DigitsPlain(SpeechIdText(speechId));
    DigitsPlain(IntText(lower));
    DigitsPlain(IntText(upper));
  }

  /** No field holds "&" when neither its key nor its value does. */
  lemma FieldsClean(keys: seq<string>, values: seq<string>)
    requires |keys| == |values|
    requires forall i :: 0 <= i < |keys| ==> Plain(keys[i]) && Plain(values[i])
    ensures forall f, j :: f in Fields(keys, values) && 0 <= j < |f| ==> f[j] != '&'
  {
    var fs := Fields(keys, values);
    forall f | f in fs ensures forall j :: 0 <= j < |f| ==> f[j] != '&' {
      var i :| 0 <= i < |fs| && fs[i] == f;
      FieldClean(keys[i], values[i]);
    }
  }

  lemma FieldClean(key: string, value: string)
    requires Plain(key) && Plain(value)
    ensures forall j :: 0 <= j < |Field(key, value)| ==> Field(key, value)[j] != '&'
  {
    var f := Field(key, value);
    forall j | 0 <= j < |f| ensures f[j] != '&' {
      if j > |key| {
        assert f[j] == value[j - |key| - 1];
      } else if j < |key| {
        assert f[j] == key[j];
      }
    }
  }

  /** The server reads back every field the page sent, under its key and in order, as long as
      no text field holds "&", "=", "#", "+" or "%" (nothing is escaped, and for such text the
      server's unquoting and the browser's fragment cut change nothing). */
  lemma ValuesUrlRoundTrip(table: string, speechId: Option<int>, typ: string, search: string, order: string,
                           lower: int, upper: int)
    requires Plain(table) && Plain(typ) && Plain(search) && Plain(order)
    ensures var url := ValuesUrl(table, speechId, typ, search, order, lower, upper);
      |url| >= 8 && url[..8] == "/values?" &&
      ParseQuery(url[8..]) == Zip(Keys, Values(table, speechId, typ, search, order, lower, upper))
  {
    var vs := Values(table, speechId, typ, search, order, lower, upper);
    var fs := Fields(Keys, vs);
    KeysPlain();
    ValuesPlain(table, speechId, typ, search, order, lower, upper);
    FieldsClean(Keys, vs);
    SplitJoin(fs, "&");
    PairsOfFields(Keys, vs);
    var url := ValuesUrl(table, speechId, typ, search, order, lower, upper);
    assert url[8..] == Join(fs, "&");
  }

  // ---------------------------------------------------------------------------------------
  // The page's controls

  /** The inputs of the page and the `fadded` mark on the upper bound. */
  class Controls {
    const tableName: string
    const maxUpper: int
    const speechId: Option<int>
    var lower: int
    var upper: int
    var text: string
    var featureType: string
    var order: string
    var faded: bool

    /** The window lies between 1 and the largest rank, as the clamp leaves it. */
    ghost predicate WindowClamped()
      reads this
    {
      1 <= lower <= upper <= maxUpper
    }

    constructor (tableName: string, maxUpper: int, speechId: Option<int>, lower: int, upper: int,
                 text: string, featureType: string, order: string)
      ensures this.tableName == tableName && this.maxUpper == maxUpper && this.speechId == speechId
      ensures this.lower == lower && this.upper == upper && this.text == text
      ensures this.featureType == featureType && this.order == order && !faded
    {
      this.tableName := tableName;
      this.maxUpper := maxUpper;
      this.speechId := speechId;
      this.lower := lower;
      this.upper := upper;
      this.text := text;
      this.featureType := featureType;
      this.order := order;
      faded := false;
    }

    /** Any change of an input: the window is clamped and written back, and the values of the
        clamped window are requested. */
    method InputHandler() returns (url: string)
      modifies this
      ensures (lower, upper) == Clamp(old(lower), old(upper), maxUpper)
      ensures text == old(text) && featureType == old(featureType) && order == old(order)
      ensures faded == old(faded)
      ensures url == ValuesUrl(tableName, speechId, featureType, text, order, lower, upper)
      ensures 1 <= maxUpper ==> WindowClamped()
    {
      var upperVal := Min(Max(Max(lower, upper), 1), maxUpper);
      var lowerVal := Max(Min(Min(lower, upper), maxUpper), 1);
      lower := lowerVal;
      upper := upperVal;
      ClampBounds(old(lower), old(upper), maxUpper);
      url := ValuesUrl(tableName, speechId, featureType, text, order, lowerVal, upperVal);
    }

    /** The response has arrived: the upper bound is marked exactly when the window is at least
        as wide as the number of values returned. */
    method UpdateGraph(values: seq<real>)
      modifies this
      ensures faded <==> upper - lower >= |values|
      ensures lower == old(lower) && upper == old(upper)
      ensures text == old(text) && featureType == old(featureType) && order == old(order)
      ensures WindowClamped() <==> old(WindowClamped())
    {
      if upper - lower >= |values| {
        faded := true;
      } else {
        faded := false;
      }
    }
  }

  /** For a request whose window was within bounds, the mark means the list of values ended
      before the upper bound: fewer pairs exist than the upper rank. */
  lemma FadedMeansExhausted(pairs: seq<Game.Pair>, lower: int, upper: int)
    requires 1 <= lower <= upper
    ensures upper - lower >= |Game.Window(pairs, lower, upper)| <==> |pairs| < upper
  {
    Game.WindowPositions(pairs, lower, upper);
  }
}
