# CEP formatter of go-multithreading-api

The program asks for a Brazilian postal code (CEP), turns it into the two
spellings that two lookup services expect, and races one HTTP request to each
service against a one-second timeout. This project models the part that is a
plain computation: `formatCep` in `main.go` and the two request URLs built
from its result.

- `formatCep` accepts a 9-byte input that contains a `-` somewhere. It keeps
  the input as the ApiCEP spelling. The ViaCEP spelling is the input with its
  first `-` removed.
- `formatCep` also accepts an 8-byte input without `-`. It keeps the input as
  the ViaCEP spelling. The ApiCEP spelling puts `-` in at index 5.
- Every other input gets the error `CEP inválido` together with the zero `Cep{}`.

Go's `len` and slicing count bytes, so inputs are `seq<byte>` (module
`GoStrings`). `strings.Contains` and `strings.Replace(s, "-", "", 1)` are
modelled for the one-byte pattern the code uses. Both run the same
left-to-right byte search, which is modelled as `Index`.

The `Cep` struct (main.go:13-16) is the datatype `Formatter.Cep`. Its zero
value `Cep{}` (main.go:83) is the constant `Formatter.ZeroCep`. Go's
`(Cep, error)` return pair is the datatype `Formatted`, with `None` for a nil
error, so the zero `Cep` that goes with the error is kept.

The code is looser than a strict reading of a CEP would be. It never checks
that bytes are digits. In the 9-byte case the `-` may be anywhere, not only at
index 5. Later `-` bytes survive into the ViaCEP spelling. The model follows
the code and proves these facts (`NineByteInput`, `LaterHyphensSurvive`,
`NonDigitsAcceptedEight`, `NonDigitsAcceptedNine`).

A 9-byte input survives the round trip through its 8-byte spelling exactly
when its only `-` is at index 5:
`RoundTripNineToEight` proves the "if" direction and
`RoundTripNineToEightOnlyIf` the "only if" direction.
`RoundTripNeedsHyphenAtFive` shows one input for which the round trip fails.

## Model

| member | source | states |
|---|---|---|
| GoStrings.Index | main.go:76-77 | -1 exactly when the byte does not occur; otherwise a position holding it with no earlier occurrence |
| GoStrings.Contains | main.go:76 | true exactly when the byte occurs in the input |
| GoStrings.RemoveFirst | main.go:77 | without the byte the input comes back unchanged; otherwise the result is one byte shorter and is the input with the byte at its first occurrence deleted |
| GoStrings.InsertThenRemoveFirst | main.go:77-80 | putting `-` into a hyphen-free text at any index and removing the first `-` gives the text back |
| Formatter.FormatCep | main.go:75-85 | accepted exactly for 9 bytes with a `-` or 8 bytes without one; otherwise the error `CEP inválido` and the zero Cep; on success ViaCEP has 8 bytes, ApiCEP has 9 bytes and contains `-`, ViaCEP is ApiCEP with its first `-` removed; a 9-byte input is kept as ApiCEP and an 8-byte input as ViaCEP |
| Formatter.NineByteInput | main.go:76-78 | a 9-byte input whose first `-` is at any index k is accepted, ApiCEP is the input unchanged, ViaCEP is the input without position k |
| Formatter.LaterHyphensSurvive | main.go:77 | `1234--678` gives ViaCEP `1234-678`: only the first `-` is removed |
| Formatter.EightByteInput | main.go:79-81 | an 8-byte input without `-` is accepted, ViaCEP is the input, ApiCEP is its first five bytes, `-`, then its last three |
| Formatter.AcceptanceIsShapeOnly | main.go:76-79 | two inputs with the same length and the same presence of `-` get the same error outcome |
| Formatter.NonDigitsAcceptedEight | main.go:79-81 | `abcdefgh` is accepted with ApiCEP `abcde-fgh`: no byte is checked to be a digit |
| Formatter.NonDigitsAcceptedNine | main.go:76-78 | `abcd-efgh` is accepted with ViaCEP `abcdefgh`: no byte is checked to be a digit |
| Formatter.BothSpellingsAgree | main.go:75-85 | `01310-100` and `01310100` both give ViaCEP `01310100` and ApiCEP `01310-100` |
| Formatter.RoundTripEightToNine | main.go:76-81 | formatting the ApiCEP spelling of an accepted 8-byte input gives the same result again |
| Formatter.RoundTripNineToEight | main.go:76-81 | for a 9-byte input whose only `-` is at index 5, formatting its ViaCEP spelling gives the same result again |
| Formatter.RoundTripNineToEightOnlyIf | main.go:76-81 | if a 9-byte input with a `-` survives the round trip through its ViaCEP spelling, its only `-` is at index 5 |
| Formatter.RoundTripNeedsHyphenAtFive | main.go:76-81 | `1234-5678` is accepted with ViaCEP `12345678`, but formatting that gives ApiCEP `12345-678`, so the round trip fails |
| Formatter.ViaCepUrl | main.go:54 | the ViaCEP URL is `https://viacep.com.br/ws/`, the 8-byte spelling, then `/json/` |
| Formatter.ApiCepUrl | main.go:55 | the ApiCEP URL is `https://cdn.apicep.com/file/apicep/`, the 9-byte spelling, then `.json` |
| Formatter.UrlsDetermineCode | main.go:54-55 | equal URLs come only from equal spellings, for either service |
| Formatter.AcceptedUrlLengths | main.go:49-55 | for every accepted input the ViaCEP URL has 39 bytes and the ApiCEP URL has 49 |

## Left out

- The prompt, `fmt.Scanln` and the `panic` on an invalid CEP (main.go:45-52): console I/O and a process abort. The model returns the error value instead.
- The goroutines, the two channels, the `select` and the one-second `time.After` timeout (main.go:57-72): concurrency and wall-clock timing.
- `getViaCep` and `getApiCep` (main.go:87-141): their work is an HTTP call, JSON decoding and encoding, and latency measurement.
- `fetchAPI` (main.go:143-162): HTTP networking through `net/http`.
- The `ViaCep` and `ApiCep` response structs (main.go:18-42): they only serve `encoding/json`, which is not part of this model.
- Non-ASCII input is only bytes here. Go slices bytes too, so `input[:5]` may split a multi-byte character, and the model does the same.
- A stricter reading of a CEP asks for the 9-character form `DDDDD-DDD` and for digits only. The code checks neither, and the model follows the code.
