/**
 The `validate.identifier` middleware: the `X-Account-Identifier-Type`
 header is lower-cased and must then be exactly "id" or "number"; otherwise
 the request is answered with 400 and never reaches a controller. An
 accepted value is handed on as the request's `identifier_type`.
 */
module IdentifierHeader {
  import opened Ledger

  /** The middleware's outcome: pass the request on with the normalised
      identifier type, or stop it with 400. */
  datatype Gate = Pass(identifierType: string) | Reject

  predicate IsUpper(c: char)
  {
    'A' <= c <= 'Z'
  }

  /** ASCII lower-casing of one character (`strtolower` is byte-wise ASCII). */
  function LowerChar(c: char): char
  {
    if IsUpper(c) then (c as int + 32) as char else c
  }

  function UpperChar(c: char): char
  {
    if 'a' <= c <= 'z' then (c as int - 32) as char else c
  }

  function ToLower(s: string): (r: string)
    ensures |r| == |s|
    ensures forall i | 0 <= i < |s| :: r[i] == LowerChar(s[i])
  {
    if s == [] then [] else [LowerChar(s[0])] + ToLower(s[1..])
  }

  /** The middleware. A missing header reads as the empty string, as
      `strtolower(null)` does, and is then rejected like any other value. */
  function Handle(header: Option<string>): (r: Gate)
    ensures r.Pass? ==> r.identifierType == "id" || r.identifierType == "number"
    ensures header.None? ==> r == Reject
  {
    var identifierType := ToLower(if header.Some? then header.value else "");
    if identifierType == "id" || identifierType == "number" then Pass(identifierType)
    else Reject
  }

  /** `h` spells the lower-case word `w`, each letter in either case. */
  predicate SpelledIgnoringCase(h: string, w: string)
  {
    |h| == |w| && forall i | 0 <= i < |h| :: h[i] == w[i] || h[i] == UpperChar(w[i])
  }

  predicate IsLowerWord(w: string)
  {
    forall i | 0 <= i < |w| :: 'a' <= w[i] <= 'z'
  }

  /** Lower-casing yields a lower-case word exactly for its case variants. */
  lemma LowerIffSpelled(h: string, w: string)
    requires IsLowerWord(w)
    ensures ToLower(h) == w <==> SpelledIgnoringCase(h, w)
  {
    var l := ToLower(h);
    if SpelledIgnoringCase(h, w) {
      forall i | 0 <= i < |h| ensures l[i] == w[i] {
        assert LowerChar(h[i]) == w[i];
      }
      assert l == w;
    }
    if l == w {
      forall i | 0 <= i < |h| ensures h[i] == w[i] || h[i] == UpperChar(w[i]) {
        assert LowerChar(h[i]) == w[i];
      }
    }
  }

  /** The headers the middleware lets through are precisely the case variants
      of "id" and "number", and the kind handed on is the lower-case word. */
  lemma HandleAcceptsExactly(header: Option<string>)
    ensures Handle(header).Pass? <==>
            header.Some? && (SpelledIgnoringCase(header.value, "id") || SpelledIgnoringCase(header.value, "number"))
    ensures Handle(header) == Pass("id") <==> header.Some? && SpelledIgnoringCase(header.value, "id")
    ensures Handle(header) == Pass("number") <==> header.Some? && SpelledIgnoringCase(header.value, "number")
  {
    var h := if header.Some? then header.value else "";
    LowerIffSpelled(h, "id");
    LowerIffSpelled(h, "number");
    if header.None? {
      assert !SpelledIgnoringCase(h, "id");
    }
  }

  /** Normalisation is idempotent: the identifier type a request carries after
      the middleware is itself accepted, unchanged. */
  lemma HandleNormalised(header: Option<string>)
    requires Handle(header).Pass?
    ensures Handle(Some(Handle(header).identifierType)) == Handle(header)
  {
  }

  /** Examples: upper- and mixed-case spellings pass as the lower-case word;
      a missing header stops. */
  lemma HandleExamples()
    ensures Handle(Some("ID")) == Pass("id")
    ensures Handle(Some("Number")) == Pass("number")
    ensures Handle(None) == Reject
  {
    HandleAcceptsExactly(Some("ID"));
    assert SpelledIgnoringCase("ID", "id");
    HandleAcceptsExactly(Some("Number"));
    assert SpelledIgnoringCase("Number", "number");
  }
}
