/**
 The board text codec of the tic-tac-toe service and the request handler
 around it.

 A board travels as nine characters, row by row from the top-left cell.
 Each character is `x`, `o` or a blank; inside a URL query string the blank
 may arrive as `+`. `ParseBoard` turns such text into a 3×3 grid, or into an
 error that names what is wrong. `Serialize` writes a grid back as text.
 `RunGame` handles one query string of the form `board=<nine characters>`.
 */
module Tictactoe {

  /** The outcome of an operation that can fail; the failure plays the part
      of the service's exception type. */
  datatype Result<+T, +E> = Success(value: T) | Failure(error: E)

  /** The failures the codec reports. Each kind carries what its message
      mentions. */
  datatype BoardError =
    | WrongLength                         // the text is not nine characters long
    | InvalidCharacter(c: char, index: nat) // the first character outside `x`, `o`, blank
    | MissingParameter                    // the query does not start with `board=`

  /** A grid of cells, as a list of rows. */
  type Board = seq<seq<char>>

  /** The reply to a successful request: a status line and a body. */
  datatype Response = Response(status: string, body: string)

  const Placeholder: char := '+'
  const Blank: char := ' '
  const BoardParam: string := "board="
  const StatusOk: string := "200 OK"

  /** The cell marks a board may hold. */
  predicate IsMark(c: char)
  {
    c == 'x' || c == 'o' || c == Blank
  }

  /** A well-formed board: three rows of three cells, each holding a mark. */
  predicate IsBoard(b: Board)
  {
    |b| == 3 &&
    forall r :: 0 <= r < 3 ==> |b[r]| == 3 && forall c :: 0 <= c < 3 ==> IsMark(b[r][c])
  }

  // ---------------------------------------------------------------------
  // Text helpers: the two string replacements the handler performs
  // ---------------------------------------------------------------------

  /** `text` with every placeholder `+` replaced by a blank. */
  function Normalize(text: string): (t: string)
    ensures |t| == |text|
    ensures forall i :: 0 <= i < |text| ==>
      t[i] == (if text[i] == Placeholder then Blank else text[i])
    ensures Placeholder !in t
  {
    if text == [] then []
    else [if text[0] == Placeholder then Blank else text[0]] + Normalize(text[1..])
  }

  /** `pat` occurs somewhere in `s`. */
  predicate Occurs(pat: string, s: string)
  {
    exists k :: 0 <= k <= |s| && pat <= s[k..]
  }

  /** `s` with its first occurrence of `pat` replaced by `rep`. */
  function ReplaceFirst(s: string, pat: string, rep: string): (r: string)
    ensures pat <= s ==> r == rep + s[|pat|..]
    ensures !Occurs(pat, s) ==> r == s
    decreases |s|
  {
    if pat <= s then
      assert s[0..] == s;
      rep + s[|pat|..]
    else if |s| <= |pat| then
      assert forall k :: 0 <= k <= |s| && pat <= s[k..] ==> k == 0;
      s
    else
      var r' := ReplaceFirst(s[1..], pat, rep);
      assert Occurs(pat, s[1..]) ==> Occurs(pat, s) by {
        if Occurs(pat, s[1..]) {
          var k :| 0 <= k <= |s[1..]| && pat <= s[1..][k..];
          assert s[1..][k..] == s[k + 1..];
        }
      }
      [s[0]] + r'
  }

  // ---------------------------------------------------------------------
  // Parsing
  // ---------------------------------------------------------------------

  /** The lowest index of `t` whose character is not a mark, or `|t|` when
      every character is a mark. */
  function FirstInvalid(t: string): (k: nat)
    ensures k <= |t|
    ensures forall j :: 0 <= j < k ==> IsMark(t[j])
    ensures k < |t| ==> !IsMark(t[k])
  {
    if t == [] || !IsMark(t[0]) then 0 else 1 + FirstInvalid(t[1..])
  }

  /** The grid whose cell in row `r`, column `c` is character `3 * r + c`. */
  function Grid(t: string): Board
    requires |t| == 9
  {
    seq(3, r requires 0 <= r < 3 => seq(3, c requires 0 <= c < 3 => t[3 * r + c]))
  }

  /** What parsing `text` yields: the placeholder is mapped to a blank first,
      then the length is checked, then the first character that is not a
      mark is reported, and otherwise character `i` lands in row `i / 3`,
      column `i % 3`. */
  function Parse(text: string): (r: Result<Board, BoardError>)
    ensures r == Failure(WrongLength) <==> |text| != 9
    ensures r.Success? ==> IsBoard(r.value)
    ensures r.Failure? ==> !r.error.MissingParameter?
  {
    var t := Normalize(text);
    if |t| != 9 then Failure(WrongLength)
    else
      var k := FirstInvalid(t);
      if k < 9 then Failure(InvalidCharacter(t[k], k))
      else Success(Grid(t))
  }

  /** Parses board text by filling a blank 3×3 grid one character at a time,
      stopping at the first character that is not a mark. */
  method ParseBoard(text: string) returns (r: Result<Board, BoardError>)
    ensures r == Parse(text)
  {
    var t := Normalize(text);
    if |t| != 9 {
      return Failure(WrongLength);
    }
    var board: Board := [[Blank, Blank, Blank], [Blank, Blank, Blank], [Blank, Blank, Blank]];
    var i := 0;
    while i < |t|
      invariant 0 <= i <= 9
      invariant forall j :: 0 <= j < i ==> IsMark(t[j])
      invariant |board| == 3 && forall row :: 0 <= row < 3 ==> |board[row]| == 3
      invariant forall row, col :: 0 <= row < 3 && 0 <= col < 3 ==>
        board[row][col] == if 3 * row + col < i then t[3 * row + col] else Blank
    {
      var c := t[i];
      if !IsMark(c) {
        return Failure(InvalidCharacter(c, i));
      }
      var col := i % 3;
      var row := i / 3;
      board := board[row := board[row][col := c]];
      i := i + 1;
    }
    forall row | 0 <= row < 3
      ensures board[row] == Grid(t)[row]
    {
      assert forall col :: 0 <= col < 3 ==> board[row][col] == Grid(t)[row][col];
    }
    assert board == Grid(t);
    assert FirstInvalid(t) == 9;
    return Success(board);
  }

  // ---------------------------------------------------------------------
  // Serialising
  // ---------------------------------------------------------------------

  /** The rows of `board` concatenated in order. For rows of three cells,
      character `i` of the text is the cell in row `i / 3`, column `i % 3`. */
  function Serialize(board: Board): (text: string)
    ensures (forall r :: 0 <= r < |board| ==> |board[r]| == 3) ==>
      |text| == 3 * |board| &&
      forall i :: 0 <= i < |text| ==> text[i] == board[i / 3][i % 3]
  {
    if board == [] then [] else board[0] + Serialize(board[1..])
  }

  // ---------------------------------------------------------------------
  // The request handler
  // ---------------------------------------------------------------------

  /** Handles a query string: it must start with `board=`; the first
      occurrence of that prefix is removed, the rest is parsed, and the
      board is written back as text under an OK status. */
  method RunGame(query: string) returns (r: Result<Response, BoardError>)
    ensures !(BoardParam <= query) ==> r == Failure(MissingParameter)
    ensures BoardParam <= query && Parse(query[|BoardParam|..]).Failure? ==>
      r == Failure(Parse(query[|BoardParam|..]).error)
    ensures BoardParam <= query && Parse(query[|BoardParam|..]).Success? ==>
      r == Success(Response(StatusOk, Normalize(query[|BoardParam|..])))
  {
    var responseLine := StatusOk;
    if !(BoardParam <= query) {
      return Failure(MissingParameter);
    }
    var rest := ReplaceFirst(query, BoardParam, "");
    assert rest == query[|BoardParam|..];
    var parsed := ParseBoard(rest);
    if parsed.Failure? {
      return Failure(parsed.error);
    }
    var output := Serialize(parsed.value);
    SerializeParse(query[|BoardParam|..]);
    return Success(Response(responseLine, output));
  }

  // ---------------------------------------------------------------------
  // Error messages
  // ---------------------------------------------------------------------

  /** The decimal digit for `d`. */
  function Digit(d: nat): (c: char)
    requires d < 10
    ensures '0' <= c <= '9'
  {
    ('0' as int + d) as char
  }

  /** Every character of `s` is a decimal digit. */
  predicate IsDigits(s: string)
  {
    forall i :: 0 <= i < |s| ==> '0' <= s[i] <= '9'
  }

  /** The number written by a string of decimal digits. */
  function DecimalValue(s: string): nat
    requires IsDigits(s)
  {
    if s == [] then 0
    else 10 * DecimalValue(s[..|s| - 1]) + (s[|s| - 1] as int - '0' as int)
  }

  /** `n` written in decimal, without leading zeros. */
  function Decimal(n: nat): (s: string)
    ensures 0 < |s| && IsDigits(s)
    ensures |s| > 1 ==> s[0] != '0'
  {
    if n < 10 then [Digit(n)] else Decimal(n / 10) + [Digit(n % 10)]
  }

  /** The human-readable text of an error, as the handler reports it. */
  function Message(e: BoardError): (m: string)
    ensures e.WrongLength? <==> |m| == 30
    ensures e.MissingParameter? <==> |m| == 27
    ensures e.InvalidCharacter? ==> |m| >= 35 && m[19] == e.c && m[34..] == Decimal(e.index)
  {
    match e
    case WrongLength => "input board should be length 9"
    case InvalidCharacter(c, i) => "invalid character '" + [c] + "' at position " + Decimal(i)
    case MissingParameter => "expected a parameter, board"
  }

  // ---------------------------------------------------------------------
  // Properties
  // ---------------------------------------------------------------------

  /** A text of the right length that holds a character other than a mark
      fails on the lowest such index, naming the character found there. */
  lemma ParseReportsFirstInvalid(text: string, k: nat)
    requires |text| == 9 && k < 9
    requires !IsMark(Normalize(text)[k])
    requires forall j :: 0 <= j < k ==> IsMark(Normalize(text)[j])
    ensures Parse(text) == Failure(InvalidCharacter(Normalize(text)[k], k))
  {
    FirstInvalidAt(Normalize(text), k);
  }

  /** `FirstInvalid` finds exactly the lowest index holding a non-mark.
      This is a named corollary of the contract of `FirstInvalid`, stated
      for the index a caller already knows. */
  lemma {:induction false} FirstInvalidAt(t: string, k: nat)
    requires k < |t| && !IsMark(t[k])
    requires forall j :: 0 <= j < k ==> IsMark(t[j])
    ensures FirstInvalid(t) == k
  {
    if k > 0 {
      assert IsMark(t[0]);
      FirstInvalidAt(t[1..], k - 1);
    }
  }

  /** Parsing succeeds exactly when the text has nine characters that are all
      marks once placeholders are blanks; the cell at row `i / 3`, column
      `i % 3` is then character `i`. */
  lemma ParseSucceeds(text: string)
    ensures Parse(text).Success? ==>
      |text| == 9 && forall i :: 0 <= i < 9 ==> IsMark(Normalize(text)[i])
    ensures |text| == 9 && (forall i :: 0 <= i < 9 ==> IsMark(Normalize(text)[i])) ==>
      Parse(text).Success?
  {
  }

  /** On success, the cell at row `i / 3`, column `i % 3` holds character `i`
      of the text with its placeholders replaced by blanks. */
  lemma ParseCells(text: string)
    requires Parse(text).Success?
    ensures forall i :: 0 <= i < 9 ==> Parse(text).value[i / 3][i % 3] == Normalize(text)[i]
  {
    var t := Normalize(text);
    var b := Parse(text).value;
    assert b == Grid(t);
    forall i | 0 <= i < 9
      ensures b[i / 3][i % 3] == t[i]
    {
      assert 3 * (i / 3) + i % 3 == i;
    }
  }

  /** A placeholder and a blank mean the same: parsing the text with its
      placeholders already replaced gives the same result. */
  lemma ParseIgnoresPlaceholder(text: string)
    ensures Parse(Normalize(text)) == Parse(text)
  {
    NormalizeIdempotent(text);
  }

  /** Replacing placeholders a second time changes nothing. */
  lemma NormalizeIdempotent(text: string)
    ensures Normalize(Normalize(text)) == Normalize(text)
  {
    var t := Normalize(text);
    assert forall i :: 0 <= i < |t| ==> t[i] != Placeholder;
  }

  /** An invalid final character is reported at position 8. */
  lemma ParseExampleInvalidCharacter()
    ensures Parse("xxxxxxxxy") == Failure(InvalidCharacter('y', 8))
  {
    ParseReportsFirstInvalid("xxxxxxxxy", 8);
  }

  /** Round trip from text: serialising a parsed board gives back the text
      with its placeholders replaced by blanks. */
  lemma SerializeParse(text: string)
    requires Parse(text).Success?
    ensures Serialize(Parse(text).value) == Normalize(text)
  {
    var t := Normalize(text);
    var s := Serialize(Parse(text).value);
    assert forall i :: 0 <= i < 9 ==> s[i] == t[i];
  }

  /** Round trip from a board: a well-formed board serialises to nine
      characters, and parsing them gives the board back. */
  lemma ParseSerialize(b: Board)
    requires IsBoard(b)
    ensures |Serialize(b)| == 9
    ensures Parse(Serialize(b)) == Success(b)
  {
    var t := Serialize(b);
    assert forall i :: 0 <= i < 9 ==> IsMark(t[i]);
    assert Normalize(t) == t;
    assert FirstInvalid(t) == 9;
    forall r | 0 <= r < 3
      ensures Grid(t)[r] == b[r]
    {
      forall c | 0 <= c < 3
        ensures Grid(t)[r][c] == b[r][c]
      {
        assert (3 * r + c) / 3 == r && (3 * r + c) % 3 == c;
      }
    }
    assert Grid(t) == b;
  }

  /** Reading a number back from its decimal text gives the number. */
  lemma {:induction false} DecimalRoundTrip(n: nat)
    ensures DecimalValue(Decimal(n)) == n
  {
    var s := Decimal(n);
    if n >= 10 {
      DecimalRoundTrip(n / 10);
      assert s[..|s| - 1] == Decimal(n / 10);
    }
  }

  /** Different errors have different messages, so the text the handler
      reports identifies the error. */
  lemma MessageIdentifiesError(e1: BoardError, e2: BoardError)
    requires Message(e1) == Message(e2)
    ensures e1 == e2
  {
    if e1.InvalidCharacter? && e2.InvalidCharacter? {
      DecimalRoundTrip(e1.index);
      DecimalRoundTrip(e2.index);
    }
  }
}
