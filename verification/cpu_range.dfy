/** The string part of `_read_cpu_range`: the contents of a CPU list such as `"0-1,3,7-9\n"`
    are split at commas, and each piece is either a lone CPU number or an inclusive range
    `start-end`; the CPUs of the pieces are concatenated in order. Reading the file is left to
    the caller; the model starts from its contents. */
module CpuRange {
  import opened Machine
  import opened Results

  // ---------------------------------------------------------------------------------------
  // The string primitives the parser uses.

  /** Characters with the Unicode `White_Space` property, which `str::trim_end` removes. */
  predicate IsWhitespace(c: char) {
    || c == ' ' || '\t' <= c <= '\r' || c == '\U{0085}' || c == '\U{00A0}' || c == '\U{1680}'
    || '\U{2000}' <= c <= '\U{200A}' || c == '\U{2028}' || c == '\U{2029}' || c == '\U{202F}'
    || c == '\U{205F}' || c == '\U{3000}'
  }

  predicate AllWhitespace(s: string) {
    forall i :: 0 <= i < |s| ==> IsWhitespace(s[i])
  }

  /** `str::trim_end`: the longest prefix that does not end in whitespace. */
  function TrimEnd(s: string): (r: string)
    ensures r <= s
    ensures AllWhitespace(s[|r|..])
    ensures |r| == 0 || !IsWhitespace(r[|r| - 1])
    decreases |s|
  {
    if |s| > 0 && IsWhitespace(s[|s| - 1]) then
      var r := TrimEnd(s[..|s| - 1]);
      assert s[|r|..] == s[..|s| - 1][|r|..] + [s[|s| - 1]];
      r
    else s
  }

  /** `str::find(c)`: the index of the first `c`, if any. */
  function Find(s: string, c: char): (r: Option<nat>)
    ensures r.None? <==> c !in s
    ensures r.Some? ==> r.value < |s| && s[r.value] == c && c !in s[..r.value]
    decreases |s|
  {
    if |s| == 0 then None
    else if s[0] == c then Some(0)
    else
      match Find(s[1..], c)
      case None =>
        assert s == [s[0]] + s[1..];
        None
      case Some(i) =>
        assert s[..i + 1] == [s[0]] + s[1..][..i];
        Some(i + 1)
  }

  /** `str::split(sep)`: the pieces between separators, always at least one. */
  function Split(s: string, sep: char): (pieces: seq<string>)
    ensures |pieces| >= 1
    ensures forall k :: 0 <= k < |pieces| ==> sep !in pieces[k]
    decreases |s|
  {
    if |s| == 0 then [""]
    else
      var rest := Split(s[..|s| - 1], sep);
      var c := s[|s| - 1];
      if c == sep then rest + [""] else Extend(rest, c)
  }

  /** The pieces with `c` appended to the last one. */
  function Extend(pieces: seq<string>, c: char): (r: seq<string>)
    requires |pieces| >= 1
    ensures |r| == |pieces|
    ensures forall k :: 0 <= k < |r| - 1 ==> r[k] == pieces[k]
    ensures r[|r| - 1] == pieces[|pieces| - 1] + [c]
  {
    pieces[..|pieces| - 1] + [pieces[|pieces| - 1] + [c]]
  }

  lemma ExtendAppend(left: seq<string>, right: seq<string>, c: char)
    requires |right| >= 1
    ensures Extend(left + right, c) == left + Extend(right, c)
  {
  }

  lemma SplitSnoc(s: string, c: char, sep: char)
    ensures c == sep ==> Split(s + [c], sep) == Split(s, sep) + [""]
    ensures c != sep ==> Split(s + [c], sep) == Extend(Split(s, sep), c)
  {
    assert (s + [c])[..|s|] == s;
  }

  /** The pieces put back together with `sep` between them. */
  function Join(pieces: seq<string>, sep: char): string
    requires |pieces| >= 1
    decreases |pieces|
  {
    if |pieces| == 1 then pieces[0]
    else Join(pieces[..|pieces| - 1], sep) + [sep] + pieces[|pieces| - 1]
  }

  lemma JoinSnoc(pieces: seq<string>, p: string, sep: char)
    requires |pieces| >= 1
    ensures Join(pieces + [p], sep) == Join(pieces, sep) + [sep] + p
  {
    assert (pieces + [p])[..|pieces|] == pieces;
  }

  /** Joining the pieces of a split gives the string back. */
  lemma {:induction false} JoinSplit(s: string, sep: char)
    ensures Join(Split(s, sep), sep) == s
    decreases |s|
  {
    if |s| > 0 {
      var init := s[..|s| - 1];
      var c := s[|s| - 1];
      var rest := Split(init, sep);
      JoinSplit(init, sep);
      assert s == init + [c];
      SplitSnoc(init, c, sep);
      if c == sep {
        JoinSnoc(rest, "", sep);
      } else {
        JoinExtend(rest, c, sep);
      }
    }
  }

  lemma JoinExtend(pieces: seq<string>, c: char, sep: char)
    requires |pieces| >= 1
    ensures Join(Extend(pieces, c), sep) == Join(pieces, sep) + [c]
  {
    var n := |pieces|;
    if n > 1 {
      var init := pieces[..n - 1];
      assert init + [pieces[n - 1]] == pieces;
      assert Extend(pieces, c) == init + [pieces[n - 1] + [c]];
      JoinSnoc(init, pieces[n - 1], sep);
      JoinSnoc(init, pieces[n - 1] + [c], sep);
    }
  }

  /** A string without the separator is one piece. */
  lemma {:induction false} SplitWithoutSeparator(s: string, sep: char)
    requires sep !in s
    ensures Split(s, sep) == [s]
    decreases |s|
  {
    if |s| > 0 {
      var init := s[..|s| - 1];
      assert init + [s[|s| - 1]] == s;
      SplitWithoutSeparator(init, sep);
      SplitSnoc(init, s[|s| - 1], sep);
    }
  }

  /** Splitting at a separator splits the two sides independently. */
  lemma {:induction false} SplitAtSeparator(a: string, b: string, sep: char)
    ensures Split(a + [sep] + b, sep) == Split(a, sep) + Split(b, sep)
    decreases |b|
  {
    if |b| == 0 {
      SplitSnoc(a, sep, sep);
      assert a + [sep] + b == a + [sep];
    } else {
      var b' := b[..|b| - 1];
      var c := b[|b| - 1];
      assert a + [sep] + b == (a + [sep] + b') + [c];
      assert b == b' + [c];
      SplitAtSeparator(a, b', sep);
      SplitSnoc(a + [sep] + b', c, sep);
      SplitSnoc(b', c, sep);
      if c != sep {
        ExtendAppend(Split(a, sep), Split(b', sep), c);
      }
    }
  }

  /** Splitting a join of separator-free pieces gives the pieces back. */
  lemma {:induction false} SplitJoin(pieces: seq<string>, sep: char)
    requires |pieces| >= 1
    requires forall k :: 0 <= k < |pieces| ==> sep !in pieces[k]
    ensures Split(Join(pieces, sep), sep) == pieces
    decreases |pieces|
  {
    var n := |pieces| - 1;
    SplitWithoutSeparator(pieces[n], sep);
    if n > 0 {
      var init := pieces[..n];
      assert init + [pieces[n]] == pieces;
      assert Join(pieces, sep) == Join(init, sep) + [sep] + pieces[n];
      assert forall k :: 0 <= k < |init| ==> init[k] == pieces[k];
      SplitJoin(init, sep);
      SplitAtSeparator(Join(init, sep), pieces[n], sep);
    }
  }

  // ---------------------------------------------------------------------------------------
  // Numbers.

  predicate IsDigit(c: char) {
    '0' <= c <= '9'
  }

  predicate AllDigits(s: string) {
    forall i :: 0 <= i < |s| ==> IsDigit(s[i])
  }

  /** The value of a string of decimal digits. */
  function DecimalValue(digits: string): nat
    requires AllDigits(digits)
    decreases |digits|
  {
    if |digits| == 0 then 0
    else
      var n := |digits| - 1;
      10 * DecimalValue(digits[..n]) + (digits[n] as int - '0' as int)
  }

  /** The decimal rendering of `n`, without leading zeros. */
  function Decimal(n: nat): (s: string)
    ensures |s| >= 1 && AllDigits(s)
    ensures s[0] == '0' ==> n == 0
    decreases n
  {
    var digit := ('0' as int + n % 10) as char;
    if n < 10 then [digit] else Decimal(n / 10) + [digit]
  }

  lemma {:induction false} DecimalRoundTrip(n: nat)
    ensures DecimalValue(Decimal(n)) == n
    decreases n
  {
    if n >= 10 {
      DecimalRoundTrip(n / 10);
      var s := Decimal(n);
      assert s[..|s| - 1] == Decimal(n / 10);
    }
  }

  /** The digits `str::parse::<u32>` reads: one leading `+` is accepted and skipped. */
  function Unsigned(s: string): string {
    if |s| > 0 && s[0] == '+' then s[1..] else s
  }

  /** `str::parse::<u32>`: an optional `+`, then at least one decimal digit, with a value below
      `2^32`. */
  function ParseU32(s: string): (r: Option<uint32>)
    ensures r.Some? ==> |s| > 0 && (IsDigit(s[0]) || s[0] == '+')
    ensures r.Some? ==> forall i :: 0 < i < |s| ==> IsDigit(s[i])
  {
    var digits := Unsigned(s);
    if |digits| > 0 && AllDigits(digits) && DecimalValue(digits) < TWO_32 then
      assert forall i :: 0 < i < |s| ==> s[i] == digits[i - |s| + |digits|];
      Some(DecimalValue(digits))
    else None
  }

  /** Parsing reads back a rendered number, with or without a `+`, and refuses one that does
      not fit `u32`. */
  lemma ParseDecimal(n: nat)
    ensures n < TWO_32 ==> ParseU32(Decimal(n)) == Some(n) && ParseU32(['+'] + Decimal(n)) == Some(n)
    ensures n >= TWO_32 ==> ParseU32(Decimal(n)) == None
  {
    DecimalRoundTrip(n);
    assert (['+'] + Decimal(n))[1..] == Decimal(n);
  }

  // ---------------------------------------------------------------------------------------
  // The parser.

  /** Which `parse` failed; the `with_context` messages of the source. */
  datatype CpuRangeError = LoneCpu | StartingCpu | EndingCpu

  /** `start..end`: the CPUs from `start` up to but excluding `end`; empty when `start >= end`. */
  function Range(start: uint32, end: uint32): (r: seq<uint32>)
    ensures |r| == if start < end then end - start else 0
    ensures forall i :: 0 <= i < |r| ==> r[i] == start + i
    decreases end - start
  {
    if start >= end then [] else [start] + Range(start + 1, end)
  }

  /** One comma-separated piece: a lone CPU, or `start-end` split at its first `-`. Only
      trailing whitespace is trimmed from each number. */
  function ParsePiece(piece: string): Result<seq<uint32>, CpuRangeError> {
    match Find(piece, '-')
    case None =>
      (match ParseU32(TrimEnd(piece))
       case None => Failure(LoneCpu)
       case Some(n) => Success([n]))
    case Some(index) =>
      (match ParseU32(TrimEnd(piece[..index]))
       case None => Failure(StartingCpu)
       case Some(start) =>
         match ParseU32(TrimEnd(piece[index + 1..]))
         case None => Failure(EndingCpu)
         case Some(end) => Success(Range(start, WrappingSucc32(end))))
  }

  /** The result of parsing two parts one after the other: the first error, else both lists
      of CPUs in order. */
  function Then(first: Result<seq<uint32>, CpuRangeError>, second: Result<seq<uint32>, CpuRangeError>)
    : (r: Result<seq<uint32>, CpuRangeError>)
    ensures r.Success? <==> first.Success? && second.Success?
    ensures first.Failure? ==> r == first
    ensures r.Success? ==> r.value == first.value + second.value
  {
    if first.Failure? then first
    else if second.Failure? then second
    else Success(first.value + second.value)
  }

  lemma ThenAssociates(x: Result<seq<uint32>, CpuRangeError>, y: Result<seq<uint32>, CpuRangeError>,
                       z: Result<seq<uint32>, CpuRangeError>)
    ensures Then(x, Then(y, z)) == Then(Then(x, y), z)
  {
    if x.Success? && y.Success? && z.Success? {
      assert x.value + (y.value + z.value) == (x.value + y.value) + z.value;
    }
  }

  /** The pieces in order; the first piece that fails decides the error. */
  function ParsePieces(pieces: seq<string>): Result<seq<uint32>, CpuRangeError>
    decreases |pieces|
  {
    if |pieces| == 0 then Success([])
    else Then(ParsePiece(pieces[0]), ParsePieces(pieces[1..]))
  }

  /** `_read_cpu_range` on the file's contents. */
  function ReadCpuRange(contents: string): Result<seq<uint32>, CpuRangeError> {
    ParsePieces(Split(contents, ','))
  }

  lemma {:induction false} ParsePiecesAppend(a: seq<string>, b: seq<string>)
    ensures ParsePieces(a + b) == Then(ParsePieces(a), ParsePieces(b))
    decreases |a|
  {
    if |a| == 0 {
      assert a + b == b;
      var r := ParsePieces(b);
      if r.Success? {
        assert [] + r.value == r.value;
      }
    } else {
      assert (a + b)[0] == a[0] && (a + b)[1..] == a[1..] + b;
      ParsePiecesAppend(a[1..], b);
      ThenAssociates(ParsePiece(a[0]), ParsePieces(a[1..]), ParsePieces(b));
    }
  }

  /** Comma-separated parts are parsed independently and their CPUs concatenated in input
      order; the first part that fails decides the error. */
  lemma ReadCpuRangeConcatenates(a: string, b: string)
    ensures ReadCpuRange(a + [','] + b) == Then(ReadCpuRange(a), ReadCpuRange(b))
  {
    SplitAtSeparator(a, b, ',');
    ParsePiecesAppend(Split(a, ','), Split(b, ','));
  }

  /** Contents without a comma are a single piece. */
  lemma SinglePiece(piece: string)
    requires ',' !in piece
    ensures ReadCpuRange(piece) == ParsePiece(piece)
  {
    SplitWithoutSeparator(piece, ',');
    assert [piece][1..] == [];
    assert ParsePieces([]) == Success([]);
    var r := ParsePiece(piece);
    if r.Success? {
      assert r.value + [] == r.value;
    }
    assert ParsePieces([piece]) == Then(r, Success([]));
  }

  lemma {:induction false} TrimTrailingWhitespace(s: string, ws: string)
    requires AllDigits(s) && |s| >= 1 && AllWhitespace(ws)
    ensures TrimEnd(s + ws) == s
    decreases |ws|
  {
    if |ws| > 0 {
      var init := ws[..|ws| - 1];
      assert (s + ws)[..|s + ws| - 1] == s + init;
      TrimTrailingWhitespace(s, init);
    } else {
      assert s + ws == s;
    }
  }

  /** A rendered number followed by whitespace reads back as that number. */
  lemma NumberParses(n: uint32, ws: string)
    requires AllWhitespace(ws)
    ensures ParseU32(TrimEnd(Decimal(n) + ws)) == Some(n)
    ensures ',' !in Decimal(n) + ws && '-' !in Decimal(n) + ws
  {
    TrimTrailingWhitespace(Decimal(n), ws);
    ParseDecimal(n);
    NoSeparators(Decimal(n), ws);
  }

  lemma NoSeparators(digits: string, ws: string)
    requires AllDigits(digits) && AllWhitespace(ws)
    ensures ',' !in digits + ws && '-' !in digits + ws
  {
    var s := digits + ws;
    assert forall i :: 0 <= i < |s| ==> IsDigit(s[i]) || IsWhitespace(s[i]);
  }

  /** A lone number, with any trailing whitespace, yields that CPU. */
  lemma LoneCpuParses(n: uint32, ws: string)
    requires AllWhitespace(ws)
    ensures ReadCpuRange(Decimal(n) + ws) == Success([n])
  {
    NumberParses(n, ws);
    SinglePiece(Decimal(n) + ws);
  }

  /** A piece with a dash is cut at its first dash. */
  lemma PieceWithDash(x: string, y: string)
    requires '-' !in x
    ensures ParsePiece(x + "-" + y) ==
      match ParseU32(TrimEnd(x))
      case None => Failure(StartingCpu)
      case Some(start) =>
        match ParseU32(TrimEnd(y))
        case None => Failure(EndingCpu)
        case Some(end) => Success(Range(start, WrappingSucc32(end)))
  {
    var piece := x + "-" + y;
    assert piece[|x|] == '-' && piece[..|x|] == x && piece[|x| + 1..] == y;
    assert Find(piece, '-') == Some(|x|);
  }

  /** `a-b`, with any trailing whitespace, yields `a, a + 1, .., b` (nothing when `a > b`); for
      `b == u32::MAX` the wrapped `end + 1` makes the list empty. */
  lemma RangeParses(a: uint32, b: uint32, ws: string)
    requires AllWhitespace(ws)
    ensures b < U32_MAX ==> ReadCpuRange(Decimal(a) + "-" + (Decimal(b) + ws)) == Success(Range(a, b + 1))
    ensures b == U32_MAX ==> ReadCpuRange(Decimal(a) + "-" + (Decimal(b) + ws)) == Success([])
  {
    NumberParses(a, "");
    assert Decimal(a) + "" == Decimal(a);
    NumberParses(b, ws);
    PieceWithDash(Decimal(a), Decimal(b) + ws);
    var piece := Decimal(a) + "-" + (Decimal(b) + ws);
    assert ',' !in piece;
    SinglePiece(piece);
  }

  /** A range holds exactly the CPUs from `start` up to but excluding `end`. */
  lemma RangeMembers(start: uint32, end: uint32)
    ensures forall x: uint32 :: x in Range(start, end) <==> start <= x < end
  {
    var r := Range(start, end);
    forall x: uint32 | start <= x < end
      ensures x in r
    {
      assert r[x - start] == x;
    }
  }

  /** Only trailing whitespace is trimmed: a piece that starts with whitespace is refused. */
  lemma LeadingWhitespaceRejected(c: char, n: uint32)
    requires IsWhitespace(c)
    ensures ReadCpuRange([c] + Decimal(n)) == Failure(LoneCpu)
  {
    var piece := [c] + Decimal(n);
    WhitespaceIsNotSyntax(c);
    assert ',' !in piece && '-' !in piece by {
      NoSeparators(Decimal(n), "");
      assert Decimal(n) + "" == Decimal(n);
    }
    assert piece[|piece| - 1] == Decimal(n)[|Decimal(n)| - 1];
    NothingToTrim(piece);
    assert ParseU32(piece).None? by {
      assert piece[0] == c;
    }
    LonePieceRejected(piece);
  }

  lemma NothingToTrim(s: string)
    requires |s| > 0 && !IsWhitespace(s[|s| - 1])
    ensures TrimEnd(s) == s
  {
  }

  /** A piece without a dash whose trimmed text is not a number is refused as a lone CPU. */
  lemma LonePieceRejected(piece: string)
    requires ',' !in piece && '-' !in piece
    requires ParseU32(TrimEnd(piece)).None?
    ensures ReadCpuRange(piece) == Failure(LoneCpu)
  {
    SinglePiece(piece);
  }

  lemma WhitespaceIsNotSyntax(c: char)
    requires IsWhitespace(c)
    ensures !IsDigit(c) && c != '+' && c != ',' && c != '-'
  {
  }

  /** Empty contents and an empty piece are refused as a missing lone CPU. */
  lemma EmptyPiecesRejected(a: uint32)
    ensures ReadCpuRange("") == Failure(LoneCpu)
    ensures ReadCpuRange(Decimal(a) + ",") == Failure(LoneCpu)
  {
    SinglePiece("");
    ReadCpuRangeConcatenates(Decimal(a), "");
    assert Decimal(a) + "," == Decimal(a) + [','] + "";
    LoneCpuParses(a, "");
    assert Decimal(a) + "" == Decimal(a);
  }

  /** A range missing either of its numbers is refused at that number. */
  lemma MissingEndRejected(a: uint32)
    ensures ReadCpuRange(Decimal(a) + "-") == Failure(EndingCpu)
  {
    var piece := Decimal(a) + "-";
    NumberParses(a, "");
    assert Decimal(a) + "" == Decimal(a);
    assert ParseU32(TrimEnd("")) == None;
    assert ParsePiece(piece) == Failure(EndingCpu) by {
      PieceWithDash(Decimal(a), "");
      assert Decimal(a) + "-" + "" == piece;
    }
    assert ',' !in piece;
    SinglePiece(piece);
  }

  lemma MissingStartRejected(a: uint32)
    ensures ReadCpuRange("-" + Decimal(a)) == Failure(StartingCpu)
  {
    var piece := "-" + Decimal(a);
    NumberParses(a, "");
    assert Decimal(a) + "" == Decimal(a);
    assert ParseU32(TrimEnd("")) == None;
    assert ParsePiece(piece) == Failure(StartingCpu) by {
      PieceWithDash("", Decimal(a));
      assert "" + "-" + Decimal(a) == piece;
    }
    assert ',' !in piece;
    SinglePiece(piece);
  }

  /** A range missing either of its numbers is refused at that number. */
  lemma OpenRangesRejected(a: uint32)
    ensures ReadCpuRange(Decimal(a) + "-") == Failure(EndingCpu)
    ensures ReadCpuRange("-" + Decimal(a)) == Failure(StartingCpu)
  {
    MissingEndRejected(a);
    MissingStartRejected(a);
  }

  // ---------------------------------------------------------------------------------------
  // The source's test cases (each file written with `writeln!`, hence the final newline).

  lemma OneCpuTestCase()
    ensures ReadCpuRange("0\n") == Success([0])
  {
    LoneCpuParses(0, "\n");
    assert Decimal(0) + "\n" == "0\n";
  }

  lemma OneRangeTestCase()
    ensures ReadCpuRange("0-7\n") == Success(Range(0, 8))
  {
    RangeParses(0, 7, "\n");
    OneRangeText();
  }

  lemma OneRangeText()
    ensures Decimal(0) + "-" + (Decimal(7) + "\n") == "0-7\n"
  {
  }

  /** Two comma-separated ranges, the second with trailing whitespace. */
  lemma TwoRangesParse(a: uint32, b: uint32, c: uint32, d: uint32, ws: string)
    requires b < U32_MAX && d < U32_MAX && AllWhitespace(ws)
    ensures ReadCpuRange(Decimal(a) + "-" + Decimal(b) + [','] + (Decimal(c) + "-" + (Decimal(d) + ws)))
         == Success(Range(a, b + 1) + Range(c, d + 1))
  {
    var first := Decimal(a) + "-" + Decimal(b);
    var second := Decimal(c) + "-" + (Decimal(d) + ws);
    assert ReadCpuRange(first) == Success(Range(a, b + 1)) by {
      RangeParses(a, b, "");
      assert Decimal(b) + "" == Decimal(b);
    }
    assert ReadCpuRange(second) == Success(Range(c, d + 1)) by {
      RangeParses(c, d, ws);
    }
    ReadCpuRangeConcatenates(first, second);
  }

  lemma TwoRangesText()
    ensures Decimal(0) + "-" + Decimal(7) + [','] + (Decimal(16) + "-" + (Decimal(23) + "\n")) == "0-7,16-23\n"
  {
    assert Decimal(16) == "16" && Decimal(23) == "23";
  }

  lemma TwoRangesTestCase()
    ensures ReadCpuRange("0-7,16-23\n") == Success(Range(0, 8) + Range(16, 24))
  {
    TwoRangesParse(0, 7, 16, 23, "\n");
    TwoRangesText();
  }

  /** Two parts that parse, joined by a comma, parse to both lists in order. */
  lemma JoinParsedParts(x: string, y: string, xs: seq<uint32>, ys: seq<uint32>)
    requires ReadCpuRange(x) == Success(xs) && ReadCpuRange(y) == Success(ys)
    ensures ReadCpuRange(x + [','] + y) == Success(xs + ys)
  {
    ReadCpuRangeConcatenates(x, y);
  }

  /** A lone CPU in front of parts that parse. */
  lemma LoneCpuThen(c: uint32, rest: string, cpus: seq<uint32>)
    requires ReadCpuRange(rest) == Success(cpus)
    ensures ReadCpuRange(Decimal(c) + [','] + rest) == Success([c] + cpus)
  {
    assert ReadCpuRange(Decimal(c)) == Success([c]) by {
      LoneCpuParses(c, "");
      assert Decimal(c) + "" == Decimal(c);
    }
    JoinParsedParts(Decimal(c), rest, [c], cpus);
  }

  /** A range `a-b` in front of parts that parse. */
  lemma RangeThen(a: uint32, b: uint32, rest: string, cpus: seq<uint32>)
    requires b < U32_MAX && ReadCpuRange(rest) == Success(cpus)
    ensures ReadCpuRange(Decimal(a) + "-" + Decimal(b) + [','] + rest) == Success(Range(a, b + 1) + cpus)
  {
    assert ReadCpuRange(Decimal(a) + "-" + Decimal(b)) == Success(Range(a, b + 1)) by {
      RangeParses(a, b, "");
      assert Decimal(b) + "" == Decimal(b);
    }
    JoinParsedParts(Decimal(a) + "-" + Decimal(b), rest, Range(a, b + 1), cpus);
  }

  /** `d-e,f,g` with trailing whitespace. */
  lemma RangeAndTwoCpusParse(d: uint32, e: uint32, f: uint32, g: uint32, ws: string)
    requires e < U32_MAX && AllWhitespace(ws)
    ensures ReadCpuRange(Decimal(d) + "-" + Decimal(e) + [','] + (Decimal(f) + [','] + (Decimal(g) + ws)))
         == Success(Range(d, e + 1) + ([f] + [g]))
  {
    LoneCpuParses(g, ws);
    LoneCpuThen(f, Decimal(g) + ws, [g]);
    RangeThen(d, e, Decimal(f) + [','] + (Decimal(g) + ws), [f] + [g]);
  }

  /** `a-b,c` in front of parts that parse. */
  lemma RangeAndCpuThen(a: uint32, b: uint32, c: uint32, rest: string, cpus: seq<uint32>)
    requires b < U32_MAX && ReadCpuRange(rest) == Success(cpus)
    ensures ReadCpuRange(Decimal(a) + "-" + Decimal(b) + [','] + (Decimal(c) + [','] + rest))
         == Success(Range(a, b + 1) + ([c] + cpus))
  {
    LoneCpuThen(c, rest, cpus);
    RangeThen(a, b, Decimal(c) + [','] + rest, [c] + cpus);
  }

  lemma MixedPartsTailText()
    ensures Decimal(7) + "-" + Decimal(9) + [','] + (Decimal(48) + [','] + (Decimal(49) + "\n")) == "7-9,48,49\n"
  {
    assert Decimal(7) == "7" && Decimal(9) == "9" && Decimal(48) == "48" && Decimal(49) == "49";
  }

  lemma MixedPartsText()
    ensures Decimal(0) + "-" + Decimal(1) + [','] + (Decimal(3) + [','] + "7-9,48,49\n") == "0-1,3,7-9,48,49\n"
  {
    assert Decimal(0) == "0" && Decimal(1) == "1" && Decimal(3) == "3";
  }

  lemma MixedPartsTestCase()
    ensures ReadCpuRange("0-1,3,7-9,48,49\n") == Success(Range(0, 2) + ([3] + (Range(7, 10) + ([48] + [49]))))
  {
    MixedPartsTailText();
    MixedPartsText();
    RangeAndTwoCpusParse(7, 9, 48, 49, "\n");
    RangeAndCpuThen(0, 1, 3, "7-9,48,49\n", Range(7, 10) + ([48] + [49]));
  }
}
