/**
 * The CEP (Brazilian postal code) formatter: `formatCep` turns the code the
 * user typed into the two spellings the two lookup services expect, and the
 * two request URLs are built from them.
 */
module Formatter {
  import opened GoStrings

  /** The separator byte '-'. */
  const Hyphen: byte := 0x2D

  /** The text of the error `formatCep` returns for a rejected input. */
  const InvalidCepMessage: string := "CEP inválido"

  /** The two spellings of one CEP: without separator (ViaCEP) and with it (ApiCEP). */
  datatype Cep = Cep(viaCep: seq<byte>, apiCep: seq<byte>)

  /** Go's zero value `Cep{}`: both fields empty. */
  const ZeroCep: Cep := Cep([], [])

  datatype Option<T> = None | Some(value: T)

  /** The pair `(Cep, error)` that `formatCep` returns; a nil error is `None`. */
  datatype Formatted = Formatted(cep: Cep, err: Option<string>)

  /**
   * The shapes `formatCep` accepts: 9 bytes with a '-' somewhere, or 8 bytes
   * with no '-'. Nothing else about the bytes is looked at.
   */
  predicate Accepted(input: seq<byte>) {
    (|input| == 9 && Hyphen in input) || (|input| == 8 && Hyphen !in input)
  }

  /** `formatCep`: normalise the typed code into both spellings, or fail. */
  function FormatCep(input: seq<byte>): (r: Formatted)
    ensures r.err == None <==> Accepted(input)
    ensures r.err != None ==> r == Formatted(ZeroCep, Some(InvalidCepMessage))
    ensures r.err == None ==> |r.cep.viaCep| == 8 && |r.cep.apiCep| == 9 && Hyphen in r.cep.apiCep
    ensures r.err == None ==> r.cep.viaCep == RemoveFirst(r.cep.apiCep, Hyphen)
    ensures r.err == None && |input| == 9 ==> r.cep.apiCep == input
    ensures r.err == None && |input| == 8 ==> r.cep.viaCep == input
  {
    if |input| == 9 && Contains(input, Hyphen) then
      Formatted(Cep(RemoveFirst(input, Hyphen), input), None)
    else if |input| == 8 && !Contains(input, Hyphen) then
      var apiCep := input[..5] + [Hyphen] + input[5..];
      assert apiCep[5] == Hyphen;
      InsertThenRemoveFirst(input, Hyphen, 5);
      Formatted(Cep(input, apiCep), None)
    else
      Formatted(ZeroCep, Some(InvalidCepMessage))
  }

  /**
   * A 9-byte input with a '-' anywhere is accepted unchanged as the ApiCEP
   * spelling; the ViaCEP spelling drops its FIRST '-' and keeps the rest.
   */
  lemma NineByteInput(input: seq<byte>, k: nat)
    requires |input| == 9
    requires FirstAt(input, Hyphen, k)
    ensures FormatCep(input).err == None
    ensures FormatCep(input).cep.apiCep == input
    ensures FormatCep(input).cep.viaCep == input[..k] + input[k + 1..]
  {
    assert input[k] == Hyphen;
  }

  /** Only the first '-' goes: "1234--678" gives the ViaCEP spelling "1234-678". */
  lemma LaterHyphensSurvive(x: seq<byte>, v: seq<byte>)
    requires x == [0x31, 0x32, 0x33, 0x34, 0x2D, 0x2D, 0x36, 0x37, 0x38]  // "1234--678"
    requires v == [0x31, 0x32, 0x33, 0x34, 0x2D, 0x36, 0x37, 0x38]  // "1234-678"
    ensures FormatCep(x) == Formatted(Cep(v, x), None)
  {
    assert x[..4] == v[..4];
    assert x[5..] == v[4..];
    assert v == v[..4] + v[4..];
    NineByteInput(x, 4);
  }

  /**
   * An 8-byte input without '-' is the ViaCEP spelling as it is; the ApiCEP
   * spelling is the same bytes with '-' put in at index 5.
   */
  lemma EightByteInput(input: seq<byte>)
    requires |input| == 8 && Hyphen !in input
    ensures FormatCep(input).err == None
    ensures FormatCep(input).cep.viaCep == input
    ensures FormatCep(input).cep.apiCep[5] == Hyphen
    ensures FormatCep(input).cep.apiCep[..5] == input[..5]
    ensures FormatCep(input).cep.apiCep[6..] == input[5..]
  {
    var a := FormatCep(input).cep.apiCep;
    assert a == input[..5] + [Hyphen] + input[5..];
    assert a[6..] == input[5..];
  }

  /**
   * Acceptance depends only on the length and on whether a '-' is present:
   * two inputs that agree on both get the same error (or none).
   */
  lemma AcceptanceIsShapeOnly(x: seq<byte>, y: seq<byte>)
    requires |x| == |y|
    requires Hyphen in x <==> Hyphen in y
    ensures FormatCep(x).err == FormatCep(y).err
  {
  }

  /** No byte is checked to be a digit: "abcdefgh" is accepted as an 8-byte code. */
  lemma NonDigitsAcceptedEight(x: seq<byte>, a: seq<byte>)
    requires x == [0x61, 0x62, 0x63, 0x64, 0x65, 0x66, 0x67, 0x68]  // "abcdefgh"
    requires a == [0x61, 0x62, 0x63, 0x64, 0x65, 0x2D, 0x66, 0x67, 0x68]  // "abcde-fgh"
    ensures FormatCep(x) == Formatted(Cep(x, a), None)
  {
    assert a[..5] == x[..5];
    assert a[6..] == x[5..];
    assert a == a[..5] + [Hyphen] + a[6..];
  }

  /** No byte is checked to be a digit: "abcd-efgh" is accepted as a 9-byte code. */
  lemma NonDigitsAcceptedNine(y: seq<byte>, v: seq<byte>)
    requires y == [0x61, 0x62, 0x63, 0x64, 0x2D, 0x65, 0x66, 0x67, 0x68]  // "abcd-efgh"
    requires v == [0x61, 0x62, 0x63, 0x64, 0x65, 0x66, 0x67, 0x68]  // "abcdefgh"
    ensures FormatCep(y) == Formatted(Cep(v, y), None)
  {
    assert y[..4] == v[..4];
    assert y[5..] == v[4..];
    assert v == v[..4] + v[4..];
    NineByteInput(y, 4);
  }

  /** Both spellings of one code give the same pair: "01310-100" and "01310100". */
  lemma BothSpellingsAgree(x: seq<byte>, y: seq<byte>)
    requires x == [0x30, 0x31, 0x33, 0x31, 0x30, 0x2D, 0x31, 0x30, 0x30]  // "01310-100"
    requires y == [0x30, 0x31, 0x33, 0x31, 0x30, 0x31, 0x30, 0x30]  // "01310100"
    ensures FormatCep(x) == Formatted(Cep(y, x), None)
    ensures FormatCep(y) == Formatted(Cep(y, x), None)
  {
    assert x[..5] == y[..5];
    assert x[6..] == y[5..];
    assert y == y[..5] + y[5..];
    assert x == x[..5] + [Hyphen] + x[6..];
    NineByteInput(x, 5);
  }

  /**
   * From 8 to 9 bytes and back: formatting the ApiCEP spelling of an accepted
   * 8-byte input gives the very same result.
   */
  lemma {:induction false} RoundTripEightToNine(input: seq<byte>)
    requires |input| == 8 && Hyphen !in input
    ensures FormatCep(FormatCep(input).cep.apiCep) == FormatCep(input)
  {
    var a := FormatCep(input).cep.apiCep;
    EightByteInput(input);
    assert a[5] == Hyphen;
    NineByteInput(a, 5);
  }

  /**
   * From 9 to 8 bytes and back: when the only '-' of a 9-byte input is at
   * index 5, formatting its ViaCEP spelling gives the very same result.
   */
  lemma {:induction false} RoundTripNineToEight(input: seq<byte>)
    requires |input| == 9 && input[5] == Hyphen
    requires forall i :: 0 <= i < 9 && i != 5 ==> input[i] != Hyphen
    ensures FormatCep(FormatCep(input).cep.viaCep) == FormatCep(input)
  {
    NineByteInput(input, 5);
    var v := input[..5] + input[6..];
    assert Hyphen !in v by {
      forall j | 0 <= j < 8 ensures v[j] != Hyphen {
        assert v[j] == input[if j < 5 then j else j + 1];
      }
    }
    EightByteInput(v);
    assert v[..5] + [Hyphen] + v[5..] == input;
  }

  /**
   * The converse: a 9-byte input with a '-' survives the 9-to-8 round trip
   * only when its one '-' is at index 5.
   */
  lemma {:induction false} RoundTripNineToEightOnlyIf(input: seq<byte>)
    requires |input| == 9 && Hyphen in input
    requires FormatCep(FormatCep(input).cep.viaCep) == FormatCep(input)
    ensures input[5] == Hyphen
    ensures forall i :: 0 <= i < 9 && i != 5 ==> input[i] != Hyphen
  {
    var k := Index(input, Hyphen);
    NineByteInput(input, k);
    var v := input[..k] + input[k + 1..];
    assert FormatCep(v).err == None;
    assert Hyphen !in v;
    EightByteInput(v);
    assert FormatCep(v).cep.apiCep == input;
    forall j | 0 <= j < 8
      ensures v[j] == input[if j < k then j else j + 1]
    {
    }
    assert k == 5;
  }

  /**
   * Without the '-' at index 5 the round trip fails: "1234-5678" becomes
   * "12345678", which formats to the ApiCEP spelling "12345-678".
   */
  lemma RoundTripNeedsHyphenAtFive(x: seq<byte>, v: seq<byte>)
    requires x == [0x31, 0x32, 0x33, 0x34, 0x2D, 0x35, 0x36, 0x37, 0x38]  // "1234-5678"
    requires v == [0x31, 0x32, 0x33, 0x34, 0x35, 0x36, 0x37, 0x38]  // "12345678"
    ensures FormatCep(x) == Formatted(Cep(v, x), None)
    ensures FormatCep(v).cep.apiCep != x
    ensures FormatCep(FormatCep(x).cep.viaCep) != FormatCep(x)
  {
    assert x[..4] == v[..4];
    assert x[5..] == v[4..];
    assert v == v[..4] + v[4..];
    NineByteInput(x, 4);
    EightByteInput(v);
    assert FormatCep(v).cep.apiCep[5] != x[5];
  }

  /** The fixed parts of the ViaCEP request URL around the code. */
  const ViaCepUrlPrefix: seq<byte> := Ascii("https://viacep.com.br/ws/")
  const ViaCepUrlSuffix: seq<byte> := Ascii("/json/")

  /** The fixed parts of the ApiCEP request URL around the code. */
  const ApiCepUrlPrefix: seq<byte> := Ascii("https://cdn.apicep.com/file/apicep/")
  const ApiCepUrlSuffix: seq<byte> := Ascii(".json")

  /** The ViaCEP request URL: the 8-byte spelling between the fixed prefix and suffix. */
  function ViaCepUrl(cep: Cep): (url: seq<byte>)
    ensures |url| == |ViaCepUrlPrefix| + |cep.viaCep| + |ViaCepUrlSuffix|
    ensures url[..|ViaCepUrlPrefix|] == ViaCepUrlPrefix
    ensures url[|ViaCepUrlPrefix|..|url| - |ViaCepUrlSuffix|] == cep.viaCep
    ensures url[|url| - |ViaCepUrlSuffix|..] == ViaCepUrlSuffix
  {
    ViaCepUrlPrefix + cep.viaCep + ViaCepUrlSuffix
  }

  /** The ApiCEP request URL: the 9-byte spelling between the fixed prefix and suffix. */
  function ApiCepUrl(cep: Cep): (url: seq<byte>)
    ensures |url| == |ApiCepUrlPrefix| + |cep.apiCep| + |ApiCepUrlSuffix|
    ensures url[..|ApiCepUrlPrefix|] == ApiCepUrlPrefix
    ensures url[|ApiCepUrlPrefix|..|url| - |ApiCepUrlSuffix|] == cep.apiCep
    ensures url[|url| - |ApiCepUrlSuffix|..] == ApiCepUrlSuffix
  {
    ApiCepUrlPrefix + cep.apiCep + ApiCepUrlSuffix
  }

  /**
   * Distinct codes give distinct URLs: each URL determines the spelling it
   * was built from, for either service.
   */
  lemma UrlsDetermineCode(c: Cep, d: Cep)
    ensures ViaCepUrl(c) == ViaCepUrl(d) ==> c.viaCep == d.viaCep
    ensures ApiCepUrl(c) == ApiCepUrl(d) ==> c.apiCep == d.apiCep
  {
  }

  /** For every accepted input both URLs have their fixed length: 39 and 49 bytes. */
  lemma AcceptedUrlLengths(input: seq<byte>)
    requires Accepted(input)
    ensures |ViaCepUrl(FormatCep(input).cep)| == 39
    ensures |ApiCepUrl(FormatCep(input).cep)| == 49
  {
  }
}
