/**
 * parse_data: one spreadsheet cell holding comma-separated numbers becomes
 * the list of the numbers it holds.  Both front ends carry the same
 * definition.  Python's float() is not modelled: it is the parameter
 * toNumber, which either accepts a token with its value or rejects it.
 */
module CellParse {
  import opened Wrappers
  import opened StrOps

  /**
   * A spreadsheet cell as the front ends see it: a Python str, or any other
   * value (a number, a missing value read as NaN, a date), together with
   * what str() prints for it.
   */
  datatype Cell = Text(s: string) | NonText(repr: string)

  /** str(cell). */
  function Str(c: Cell): string {
    match c
    case Text(s) => s
    case NonText(repr) => repr
  }

  /** The number conversion applied to every token: float() in the source. */
  type Converter = string -> Option<real>

  predicate IsDoubleQuote(c: char) { c == '"' }

  predicate IsSingleQuote(c: char) { c == '\'' }

  /** Outer whitespace first, then every leading and trailing '"', then every leading and trailing '\''. */
  function Unwrap(s: string): string
  {
    Strip(Strip(Strip(s, IsSpace), IsDoubleQuote), IsSingleQuote)
  }

  /** What the unwrapping may remove: whitespace and the two quote characters. */
  predicate IsWrapping(c: char) {
    IsSpace(c) || IsDoubleQuote(c) || IsSingleQuote(c)
  }

  /**
   * The unwrapping only cuts the ends: its result is the text between an
   * offset a and a + |result|, untouched, so quotes and spaces inside it
   * are kept, and everything cut off is whitespace or a quote.
   */
  lemma {:induction false} UnwrapInfix(s: string) returns (a: nat)
    ensures CutAt(s, a, Unwrap(s), IsWrapping)
  {
    a := StripThrice(s, IsSpace, IsDoubleQuote, IsSingleQuote);
    var u := Unwrap(s);
    forall k | 0 <= k < a || a + |u| <= k < |s|
      ensures IsWrapping(s[k])
    {
    }
  }

  /** The comma-separated pieces of a cell's text, before trimming. */
  function Pieces(s: string): seq<string> {
    Split(Unwrap(s), ',')
  }

  /** What one piece contributes: its trimmed text, if non-empty and accepted by the conversion. */
  function Convert(p: string, toNumber: Converter): Option<real> {
    var t := Strip(p, IsSpace);
    if t == [] then None else toNumber(t)
  }

  /** The per-piece conversion of parse_data, as a value. */
  function PieceValue(toNumber: Converter): string -> Option<real> {
    p => Convert(p, toNumber)
  }

  /**
   * The values of the pieces a per-piece conversion accepts, left to right.
   * parse_data uses it with PieceValue(toNumber).
   */
  function Accepted(ps: seq<string>, conv: string -> Option<real>): seq<real>
  {
    if ps == [] then []
    else
      var front := Accepted(ps[..|ps| - 1], conv);
      match conv(ps[|ps| - 1])
      case Some(v) => front + [v]
      case None => front
  }

  /** The values parse_data returns for a cell. */
  function Parsed(cell: Cell, toNumber: Converter): seq<real> {
    match cell
    case NonText(_) => []
    case Text(s) => if s == [] then [] else Accepted(Pieces(s), PieceValue(toNumber))
  }

  /** The loop of parse_data: trim every piece and append the value of each non-empty one float() accepts. */
  method KeepValues(parts: seq<string>, toNumber: Converter) returns (values: seq<real>)
    ensures values == Accepted(parts, PieceValue(toNumber))
  {
    values := [];
    for i := 0 to |parts|
      invariant values == Accepted(parts[..i], PieceValue(toNumber))
    {
      assert parts[..i + 1][..i] == parts[..i];
      var p := Strip(parts[i], IsSpace);
      if p != [] {
        match toNumber(p)
        case Some(v) => values := values + [v];
        case None =>
      }
    }
    assert parts[..|parts|] == parts;
  }

  /**
   * parse_data: an empty text or a value that is not text gives no values;
   * otherwise the text is unwrapped, split on commas, and the loop keeps
   * the accepted pieces.
   */
  method ParseData(cell: Cell, toNumber: Converter) returns (values: seq<real>)
    ensures cell.NonText? || cell.s == [] ==> values == []
    ensures values == Parsed(cell, toNumber)
  {
    if cell.NonText? || cell.s == [] {
      return [];
    }
    var s := Unwrap(cell.s);
    var parts := Split(s, ',');
    values := KeepValues(parts, toNumber);
  }

  /** Parsing never yields more values than there are pieces. */
  lemma {:induction false} AcceptedBound(ps: seq<string>, conv: string -> Option<real>)
    ensures |Accepted(ps, conv)| <= |ps|
  {
    if ps != [] {
      AcceptedBound(ps[..|ps| - 1], conv);
    }
  }

  /** Parsing is piece by piece: the values of a + b are those of a followed by those of b. */
  lemma {:induction false} AcceptedAppend(a: seq<string>, b: seq<string>, conv: string -> Option<real>)
    ensures Accepted(a + b, conv) == Accepted(a, conv) + Accepted(b, conv)
  {
    if b == [] {
      assert a + b == a;
    } else {
      AcceptedAppend(a, b[..|b| - 1], conv);
      assert (a + b)[..|a + b| - 1] == a + b[..|b| - 1];
      assert (a + b)[|a + b| - 1] == b[|b| - 1];
    }
  }

  /**
   * The indices of the pieces the conversion accepts, in increasing order.
   */
  function KeptIndices(ps: seq<string>, conv: string -> Option<real>): (ix: seq<nat>)
    ensures forall k :: 0 <= k < |ix| ==> ix[k] < |ps|
    ensures forall k, l :: 0 <= k < l < |ix| ==> ix[k] < ix[l]
  {
    if ps == [] then []
    else
      var front := KeptIndices(ps[..|ps| - 1], conv);
      if conv(ps[|ps| - 1]).Some? then front + [|ps| - 1] else front
  }

  /**
   * Order is preserved and nothing is invented: value k is the conversion
   * of the k-th accepted piece, and a piece is skipped exactly when it is
   * empty after trimming or the conversion rejects it.
   */
  lemma {:induction false} AcceptedSelects(ps: seq<string>, conv: string -> Option<real>)
    ensures |Accepted(ps, conv)| == |KeptIndices(ps, conv)|
    ensures forall k :: 0 <= k < |KeptIndices(ps, conv)| ==>
      conv(ps[KeptIndices(ps, conv)[k]]) == Some(Accepted(ps, conv)[k])
    ensures forall j :: 0 <= j < |ps| ==> (j in KeptIndices(ps, conv) <==> conv(ps[j]).Some?)
  {
    if ps != [] {
      var n := |ps|;
      var front := ps[..n - 1];
      AcceptedSelects(front, conv);
      var ix, fix := KeptIndices(ps, conv), KeptIndices(front, conv);
      var vs, fvs := Accepted(ps, conv), Accepted(front, conv);
      if conv(ps[n - 1]).Some? {
        assert ix == fix + [n - 1] && vs == fvs + [conv(ps[n - 1]).value];
      } else {
        assert ix == fix && vs == fvs;
      }
      forall k | 0 <= k < |ix|
        ensures conv(ps[ix[k]]) == Some(vs[k])
      {
        if k < |fix| {
          assert ix[k] == fix[k] && ps[fix[k]] == front[fix[k]] && vs[k] == fvs[k];
        }
      }
      forall j | 0 <= j < n
        ensures j in ix <==> conv(ps[j]).Some?
      {
        if j < n - 1 {
          assert ps[j] == front[j];
          assert j in ix <==> j in fix;
        }
      }
    }
  }

  /** The value count of a text cell is bounded by the number of its comma-separated pieces. */
  lemma ParsedBound(s: string, toNumber: Converter)
    ensures |Parsed(Text(s), toNumber)| <= multiset(Unwrap(s))[','] + 1
  {
    AcceptedBound(Pieces(s), PieceValue(toNumber));
    SplitCount(Unwrap(s), ',');
  }

  /** When every piece is accepted, the values are the conversions of all pieces, in order. */
  lemma {:induction false} AcceptedAll(ps: seq<string>, conv: string -> Option<real>)
    requires forall i :: 0 <= i < |ps| ==> conv(ps[i]).Some?
    ensures |Accepted(ps, conv)| == |ps|
    ensures forall i :: 0 <= i < |ps| ==> Accepted(ps, conv)[i] == conv(ps[i]).value
  {
    if ps != [] {
      AcceptedAll(ps[..|ps| - 1], conv);
    }
  }

  /** Characters a plain numeric list is written with. */
  predicate IsNumeralChar(c: char) {
    '0' <= c <= '9' || c == '-' || c == '.' || c == ','
  }

  /** A text made only of numeral characters. */
  predicate IsNumeralText(s: string) {
    forall k :: 0 <= k < |s| ==> IsNumeralChar(s[k])
  }

  /** A text written only with digits, minus signs, points and commas is not altered by the unwrapping. */
  lemma UnwrapNumerals(s: string)
    requires IsNumeralText(s)
    ensures Unwrap(s) == s
  {
    assert forall k :: 0 <= k < |s| ==> !IsSpace(s[k]) && !IsDoubleQuote(s[k]) && !IsSingleQuote(s[k]);
    var a := Strip(s, IsSpace);
    assert a == s;
    var b := Strip(a, IsDoubleQuote);
    assert b == s;
  }

  /** A piece that starts and ends with a numeral character reaches the conversion untrimmed. */
  lemma PieceValueNumerals(p: string, toNumber: Converter)
    requires p != [] && IsNumeralChar(p[0]) && IsNumeralChar(p[|p| - 1])
    ensures PieceValue(toNumber)(p) == toNumber(p)
  {
    StripKeptEnds(p, IsSpace);
  }

  /** Joining numeral texts with commas gives a numeral text. */
  lemma {:induction false} JoinNumerals(ps: seq<string>)
    requires |ps| >= 1
    requires forall i :: 0 <= i < |ps| ==> IsNumeralText(ps[i])
    ensures IsNumeralText(Join(ps, ','))
    ensures ps[0] != [] ==> Join(ps, ',') != []
  {
    if |ps| > 1 {
      JoinNumerals(ps[1..]);
      var t := Join(ps[1..], ',');
      assert Join(ps, ',') == ps[0] + [','] + t;
      forall k | 0 <= k < |Join(ps, ',')|
        ensures IsNumeralChar(Join(ps, ',')[k])
      {
        if k > |ps[0]| {
          assert Join(ps, ',')[k] == t[k - |ps[0]| - 1];
        }
      }
    }
  }

  /** Numerals joined with commas unwrap to themselves and split back into the same numerals. */
  lemma PiecesOfNumerals(ps: seq<string>)
    requires |ps| >= 1
    requires forall i :: 0 <= i < |ps| ==> ps[i] != [] && IsNumeralText(ps[i]) && ',' !in ps[i]
    ensures Join(ps, ',') != [] && Pieces(Join(ps, ',')) == ps
  {
    var s := Join(ps, ',');
    JoinNumerals(ps);
    UnwrapNumerals(s);
    SplitJoin(ps, ',');
  }

  /**
   * A cell written as non-empty numerals separated by commas, each accepted
   * by the conversion, gives the value of every numeral, in order.
   */
  lemma NumeralList(ps: seq<string>, toNumber: Converter)
    requires |ps| >= 1
    requires forall i :: 0 <= i < |ps| ==> ps[i] != [] && IsNumeralText(ps[i]) && ',' !in ps[i]
    requires forall i :: 0 <= i < |ps| ==> toNumber(ps[i]).Some?
    ensures |Parsed(Text(Join(ps, ',')), toNumber)| == |ps|
    ensures forall i :: 0 <= i < |ps| ==> Parsed(Text(Join(ps, ',')), toNumber)[i] == toNumber(ps[i]).value
  {
    PiecesOfNumerals(ps);
    assert Parsed(Text(Join(ps, ',')), toNumber) == Accepted(ps, PieceValue(toNumber));
    AcceptedNumerals(ps, toNumber);
  }

  /** Numeral pieces accepted by the conversion all contribute their value, in order. */
  lemma AcceptedNumerals(ps: seq<string>, toNumber: Converter)
    requires forall i :: 0 <= i < |ps| ==> ps[i] != [] && IsNumeralChar(ps[i][0]) && IsNumeralChar(ps[i][|ps[i]| - 1])
    requires forall i :: 0 <= i < |ps| ==> toNumber(ps[i]).Some?
    ensures |Accepted(ps, PieceValue(toNumber))| == |ps|
    ensures forall i :: 0 <= i < |ps| ==> Accepted(ps, PieceValue(toNumber))[i] == toNumber(ps[i]).value
  {
    var conv := PieceValue(toNumber);
    forall i | 0 <= i < |ps|
      ensures conv(ps[i]) == toNumber(ps[i])
    {
      PieceValueNumerals(ps[i], toNumber);
    }
    AcceptedAll(ps, conv);
  }

  /** The numerals of the sample cell shown to users. */
  const SampleNumerals: seq<string> := ["0", "0", "-1", "0", "1", "1", "1", "1"]

  /** The last four sample numerals joined. */
  lemma SampleJoinTail()
    ensures Join(SampleNumerals[4..], ',') == "1,1,1,1"
  {
    var ps := SampleNumerals[4..];
    assert ps == ["1", "1", "1", "1"];
    assert Join(ps[3..], ',') == "1";
    assert Join(ps[2..], ',') == "1,1" by { assert ps[2..][1..] == ps[3..]; }
    assert Join(ps[1..], ',') == "1,1,1" by { assert ps[1..][1..] == ps[2..]; }
  }

  /** The last six sample numerals joined. */
  lemma SampleJoinMiddle()
    ensures Join(SampleNumerals[2..], ',') == "-1,0,1,1,1,1"
  {
    var ps := SampleNumerals;
    SampleJoinTail();
    assert Join(ps[3..], ',') == "0,1,1,1,1" by { assert ps[3..][1..] == ps[4..]; }
    assert ps[2..][1..] == ps[3..];
  }

  /** The sample numerals joined, as the sample cell text. */
  lemma SampleJoin()
    ensures Join(SampleNumerals, ',') == "0,0,-1,0,1,1,1,1"
  {
    var ps := SampleNumerals;
    SampleJoinMiddle();
    assert Join(ps[1..], ',') == "0,-1,0,1,1,1,1" by { assert ps[1..][1..] == ps[2..]; }
  }

  lemma SampleValues(vs: seq<real>)
    requires |vs| == 8
    requires vs[0] == 0.0 && vs[1] == 0.0 && vs[2] == -1.0 && vs[3] == 0.0
    requires vs[4] == 1.0 && vs[5] == 1.0 && vs[6] == 1.0 && vs[7] == 1.0
    ensures vs == [0.0, 0.0, -1.0, 0.0, 1.0, 1.0, 1.0, 1.0]
  {
  }

  /** The sample cell shown to users, 0,0,-1,0,1,1,1,1, gives its eight numbers in order. */
  lemma DocumentedSample(toNumber: Converter)
    requires toNumber("0") == Some(0.0) && toNumber("1") == Some(1.0) && toNumber("-1") == Some(-1.0)
    ensures Parsed(Text("0,0,-1,0,1,1,1,1"), toNumber) == [0.0, 0.0, -1.0, 0.0, 1.0, 1.0, 1.0, 1.0]
  {
    var ps := SampleNumerals;
    assert forall i :: 0 <= i < |ps| ==> ps[i] == "0" || ps[i] == "1" || ps[i] == "-1";
    NumeralList(ps, toNumber);
    var vs := Parsed(Text(Join(ps, ',')), toNumber);
    assert |vs| == 8;
    assert vs[0] == 0.0 && vs[1] == 0.0 && vs[2] == -1.0 && vs[3] == 0.0;
    assert vs[4] == 1.0 && vs[5] == 1.0 && vs[6] == 1.0 && vs[7] == 1.0;
    SampleValues(vs);
    SampleJoin();
  }

  /** A single piece contributes its value, or nothing. */
  lemma AcceptedSingle(p: string, conv: string -> Option<real>)
    ensures Accepted([p], conv) == match conv(p) case Some(v) => [v] case None => []
  {
    assert [p][..0] == [];
  }

  /** Unwrapping removes a double quote and then a single quote from each end. */
  lemma UnwrapDoubleThenSingle(p: string)
    requires p != [] && IsNumeralChar(p[0]) && IsNumeralChar(p[|p| - 1])
    ensures Unwrap("\"'" + p + "'\"") == p
  {
    var inner := "'" + p + "'";
    var s := "\"'" + p + "'\"";
    assert s == ['"'] + inner + ['"'];
    assert inner == ['\''] + p + ['\''];
    StripKeptEnds(s, IsSpace);
    StripOnePair('"', inner, IsDoubleQuote);
    StripOnePair('\'', p, IsSingleQuote);
  }

  /** Unwrapping leaves a double quote that sits inside a single quote. */
  lemma UnwrapSingleKeepsDouble(p: string)
    requires p != []
    ensures Unwrap("'\"" + p + "\"'") == "\"" + p + "\""
  {
    var inner := "\"" + p + "\"";
    var s := "'\"" + p + "\"'";
    assert s == ['\''] + inner + ['\''];
    assert inner[0] == '"' && inner[|inner| - 1] == '"';
    StripKeptEnds(s, IsSpace);
    StripKeptEnds(s, IsDoubleQuote);
    StripOnePair('\'', inner, IsSingleQuote);
  }

  /** A numeral wrapped in a double quote outside a single quote is unwrapped and converted. */
  lemma QuotesStrippedInOrder(p: string, toNumber: Converter)
    requires p != [] && IsNumeralChar(p[0]) && IsNumeralChar(p[|p| - 1]) && ',' !in p
    requires toNumber(p).Some?
    ensures Parsed(Text("\"'" + p + "'\""), toNumber) == [toNumber(p).value]
  {
    UnwrapDoubleThenSingle(p);
    SplitWithoutSep(p, ',');
    assert Pieces("\"'" + p + "'\"") == [p];
    PieceValueNumerals(p, toNumber);
    AcceptedSingle(p, PieceValue(toNumber));
  }

  /** A comma-free text inside a double quote inside a single quote is one piece, still double-quoted. */
  lemma PiecesSingleKeepsDouble(p: string)
    requires p != [] && ',' !in p
    ensures Pieces("'\"" + p + "\"'") == ["\"" + p + "\""]
  {
    var inner := "\"" + p + "\"";
    UnwrapSingleKeepsDouble(p);
    assert ',' !in inner;
    SplitWithoutSep(inner, ',');
  }

  /**
   * The double quotes are stripped before the single quotes, so a double
   * quote inside single quotes survives the unwrapping; the piece still
   * holds it, and a conversion that rejects the quoted text (as float()
   * does) leaves no value.
   */
  lemma InnerQuotesKept(p: string, toNumber: Converter)
    requires p != [] && ',' !in p
    requires toNumber("\"" + p + "\"") == None
    ensures Parsed(Text("'\"" + p + "\"'"), toNumber) == []
  {
    var inner := "\"" + p + "\"";
    PiecesSingleKeepsDouble(p);
    QuotedPieceRejected(inner, toNumber);
    AcceptedSingle(inner, PieceValue(toNumber));
  }

  /** A piece that starts and ends with a double quote reaches the conversion as it is. */
  lemma QuotedPieceRejected(inner: string, toNumber: Converter)
    requires |inner| >= 2 && inner[0] == '"' && inner[|inner| - 1] == '"'
    requires toNumber(inner) == None
    ensures PieceValue(toNumber)(inner) == None
  {
    StripKeptEnds(inner, IsSpace);
  }
}
