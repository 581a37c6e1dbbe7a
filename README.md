# Tic-tac-toe board codec, modelled in Dafny

The tic-tac-toe web service takes a board from a URL query string of the form
`board=<nine characters>`. The nine characters are the cells row by row from
the top-left corner. Each one is `x`, `o` or a blank, and in a query string the
blank may be written as `+`. The service checks the text, builds a 3×3 grid
from it and writes the grid back as text under a `200 OK` status. When the
text is wrong it raises `TictactoeException` with a message.

This project models that codec and handler from `tictactoe.py`. It is one
module, `Tictactoe`, in `tictactoe.dfy`:

- `ParseBoard` models `parse_board`. It is a method with a loop. The loop fills
  a blank 3×3 grid one character at a time, putting character `i` at row `i / 3`,
  column `i % 3`. It stops at the first character that is not a mark.
  It is proved equal to `Parse`, a declarative definition, and the properties
  of parsing are lemmas about `Parse`.
- `Serialize` models `serialize_board`: the rows concatenated in order.
- `RunGame` models `run_game`: the `board=` prefix check, parsing, and echoing
  the board.
- The exception is the `Failure` case of `Result`. Its `BoardError` has one kind
  per `raise` in the source: `WrongLength`, `InvalidCharacter(c, index)` and
  `MissingParameter`. `Message` gives the text the source puts in each error.

Python 2's `/` on the non-negative index is floor division. Dafny's `/` on
non-negative integers gives the same value.

`tictactoe.py` has no move logic; it parses the board and echoes it back.

## Model

| member | source | states |
|---|---|---|
| `Tictactoe.Normalize` | tictactoe.py:10 | Every `+` becomes a blank and every other character is kept. The length is unchanged and no `+` is left. |
| `Tictactoe.FirstInvalid` | tictactoe.py:15-17 | The result is the lowest index whose character is not `x`, `o` or blank, or the length when there is none. Every earlier character is a mark. |
| `Tictactoe.FirstInvalidAt` | tictactoe.py:15-17 | If index `k` holds a non-mark and every earlier index holds a mark, the scan stops at exactly `k`. |
| `Tictactoe.Parse` | tictactoe.py:9-22 | Parsing fails with the length error exactly when the input does not have 9 characters, even when it also has bad characters. The length check comes before the character check. A successful result is 3 rows of 3 cells, each `x`, `o` or blank. Parsing never reports a missing parameter. |
| `Tictactoe.ParseBoard` | tictactoe.py:9-22 | The loop that fills the grid cell by cell and stops at the first bad character returns what `Parse` defines, on every input, error cases included. |
| `Tictactoe.ParseReportsFirstInvalid` | tictactoe.py:11-17 | A 9-character input whose normalised text has a non-mark at `k`, with only marks before `k`, fails reporting index `k` and the character found there. |
| `Tictactoe.ParseExampleInvalidCharacter` | tictactoe.py:15-17 | `"xxxxxxxxy"` fails reporting `'y'` at position 8. |
| `Tictactoe.ParseSucceeds` | tictactoe.py:11-17 | Parsing succeeds if and only if the input has 9 characters and each one, after normalisation, is `x`, `o` or blank. |
| `Tictactoe.ParseCells` | tictactoe.py:14-20 | On success, the cell at row `i / 3`, column `i % 3` is the normalised character at index `i`, for every `i` in 0..8. |
| `Tictactoe.NormalizeIdempotent` | tictactoe.py:10 | Replacing placeholders in text that has already been normalised changes nothing. |
| `Tictactoe.ParseIgnoresPlaceholder` | tictactoe.py:10 | `+` and a blank are interchangeable in the input: parsing the text with every `+` already replaced gives the same result, success or error. |
| `Tictactoe.Serialize` | tictactoe.py:24-25 | For rows of 3 cells, the text has 3 characters per row, and character `i` is the cell at row `i / 3`, column `i % 3`. |
| `Tictactoe.SerializeParse` | tictactoe.py:9-25 | Round trip from text: for every input that parses, serialising the board gives back the input with `+` replaced by a blank. |
| `Tictactoe.ParseSerialize` | tictactoe.py:14-25 | Round trip from a board: a 3×3 board of marks serialises to 9 characters, and parsing them gives the same board back. |
| `Tictactoe.ReplaceFirst` | tictactoe.py:32 | When the text starts with the pattern, only that leading occurrence is replaced. When the pattern does not occur, the text is unchanged. |
| `Tictactoe.RunGame` | tictactoe.py:27-36 | A query that does not start with `board=` fails with the missing-parameter error. Otherwise the prefix is stripped once and any parse error is passed through unchanged. On success the status is `200 OK` and the body is the text after the prefix with `+` replaced by a blank. |
| `Tictactoe.Message` | tictactoe.py:12-31 | The text of each error kind, as raised at lines 12, 17 and 31 and returned by `ErrorMessage` at lines 6-7. The length error and the missing-parameter error have fixed texts of 30 and 27 characters. The bad-character text holds the character at position 19 and ends with its index in decimal from position 34. |
| `Tictactoe.Decimal` | tictactoe.py:17 | The index in the bad-character message is written as a non-empty string of decimal digits with no leading zero. |
| `Tictactoe.DecimalRoundTrip` | tictactoe.py:17 | Reading the decimal text of a number back gives the number. |
| `Tictactoe.MessageIdentifiesError` | tictactoe.py:3-7 | Two errors with the same message are the same error. The kind, the bad character and its index can all be recovered from the text passed back to the caller. |

## Left out

- `application` (tictactoe.py:38-48): the WSGI entry point. It reads the query string from the environment, calls `start_response`, maps an exception to `400 Bad Request` and encodes the body as UTF-8. This is I/O glue.
- `print_board` and the `__main__` block (tictactoe.py:51-61): debugging output to standard output.
- Python 2 `str` is a byte string, so `len` counts bytes. The model's `string` is a sequence of characters. A multi-byte character therefore counts once here, but as several bytes in the source.
- `Serialize` takes each cell to be one character, as `parse_board` produces. Python's `join` would also accept cells holding longer strings.
- `ParseBoard` updates its grid as a value, one cell at a time, rather than through Python list objects. The source builds each row as a separate list, so no sharing between rows is lost.
- The query string is not URL-decoded in the source apart from the `+` placeholder, and the model does the same. For example, `%20` stays three characters and fails the length or character check.
