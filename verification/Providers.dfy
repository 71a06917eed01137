/** Canonical provider identities (`provider_identity.py`). */
module Providers {
  import opened Common
  import opened Text

  datatype ProviderError = UnsupportedProvider | MissingProjectId | NotNumeric

  function Lower(text: string): string {
    seq(|text|, i requires 0 <= i < |text| => if 'A' <= text[i] <= 'Z' then (text[i] as int + 32) as char else text[i])
  }

  /** Each capital becomes the small letter at its place of the alphabet; nothing else changes. */
  lemma LowerIs(text: string, i: nat)
    requires i < |text|
    ensures |Lower(text)| == |text|
    ensures 'A' <= text[i] <= 'Z' ==> Lower(text)[i] as int - 'a' as int == text[i] as int - 'A' as int
    ensures !('A' <= text[i] <= 'Z') ==> Lower(text)[i] == text[i]
  {
  }

  lemma {:induction false} RstripLower(text: string)
    ensures Rstrip(Lower(text)) == Lower(Rstrip(text))
    decreases |text|
  {
    if text != [] {
      assert Lower(text)[..|text| - 1] == Lower(text[..|text| - 1]);
      if IsSpace(text[|text| - 1]) { RstripLower(text[..|text| - 1]); }
    }
  }

  lemma {:induction false} StripLower(text: string)
    ensures Strip(Lower(text)) == Lower(Strip(text))
  {
    if text != [] && IsSpace(text[0]) {
      assert Lower(text)[1..] == Lower(text[1..]);
      StripLower(text[1..]);
    } else {
      RstripLower(text);
    }
  }

  /** Surrounding whitespace and capitals play no part, once they are gone. */
  lemma PlainFormIsPlain(text: string)
    ensures Lower(Strip(Lower(Strip(text)))) == Lower(Strip(text))
  {
    StripLower(Strip(text));
    StripTwice(text);
    assert Lower(Lower(Strip(text))) == Lower(Strip(text));
  }

  /** `canonical_provider`. */
  function CanonicalProvider(provider: string): Result<string, ProviderError> {
    var normalized := Lower(Strip(provider));
    if normalized in {"mr", "modrinth"} then Ok("modrinth")
    else if normalized in {"cf", "curseforge"} then Ok("curseforge")
    else if normalized in {"u", "url", "selfhost", "self-hosted"} then Ok("url")
    else Err(UnsupportedProvider)
  }

  predicate HasControl(text: string) { exists i :: 0 <= i < |text| && text[i] < ' ' }

  /** `canonical_identity`. */
  function CanonicalIdentity(provider: string, projectId: string): Result<string, ProviderError> {
    var normalized :- CanonicalProvider(provider);
    var value := Strip(projectId);
    if value == "" || HasControl(value) then Err(MissingProjectId)
    else if normalized == "curseforge" && !IsDecimal(value) then Err(NotNumeric)
    else Ok(normalized + ":" + value)
  }

  /** The two providers a root may be replaced from are their own canonical names. */
  lemma CanonicalNames(provider: string)
    ensures CanonicalProvider("modrinth") == Ok("modrinth") && CanonicalProvider("curseforge") == Ok("curseforge")
    ensures CanonicalProvider(provider).Ok? ==> CanonicalProvider(provider).value in {"modrinth", "curseforge", "url"}
  {
    assert Strip("modrinth") == "modrinth" && Strip("curseforge") == "curseforge";
    assert Lower("modrinth") == "modrinth" && Lower("curseforge") == "curseforge";
  }

  /** A decimal text is the numeral of a positive number exactly when it does not start with a zero. */
  lemma PositiveCanonical(text: string)
    requires IsDecimal(text)
    ensures ToNat(text) > 0 && Numeral(ToNat(text)) == text <==> text[0] != '0'
  {
    NumeralOfNat(text);
    NumeralStart(ToNat(text));
  }

  /** A provider is named in any case and with whitespace around it; the canonical name is itself. */
  lemma ProviderNames(provider: string)
    ensures CanonicalProvider(provider) == CanonicalProvider(Lower(Strip(provider)))
    ensures CanonicalProvider(provider).Ok? ==>
              CanonicalProvider(CanonicalProvider(provider).value) == CanonicalProvider(provider)
  {
    PlainFormIsPlain(provider);
    CanonicalNames(provider);
    PlainName("url");
  }

  /** The short names of the providers. */
  lemma ShortNames()
    ensures CanonicalProvider("mr") == Ok("modrinth") && CanonicalProvider("cf") == Ok("curseforge")
  {
    PlainName("mr");
    PlainName("cf");
  }

  lemma OwnHostNames()
    ensures CanonicalProvider("u") == Ok("url") && CanonicalProvider("selfhost") == Ok("url")
    ensures CanonicalProvider("self-hosted") == Ok("url")
  {
    PlainName("u");
    PlainName("selfhost");
    PlainName("self-hosted");
  }

  lemma PlainName(text: string)
    requires text != "" && forall i :: 0 <= i < |text| ==> !IsSpace(text[i]) && !('A' <= text[i] <= 'Z')
    ensures Lower(Strip(text)) == text
  {
    NothingToStrip(text);
  }

  /**
   An identity is the canonical provider and the stripped project ID: there must be one, without control characters,
   and for CurseForge it is a number.
   */
  lemma IdentityExactlyWhen(provider: string, projectId: string)
    ensures
      var r, name, value := CanonicalIdentity(provider, projectId), CanonicalProvider(provider), Strip(projectId);
      && (r.Ok? <==> name.Ok? && value != "" && !HasControl(value) && (name.value == "curseforge" ==> IsDecimal(value)))
      && (r.Ok? ==> r.value == name.value + ":" + value)
      && (r.Err? ==>
            r.error == if name.Err? then UnsupportedProvider
                       else if value == "" || HasControl(value) then MissingProjectId else NotNumeric)
  {
  }
}
