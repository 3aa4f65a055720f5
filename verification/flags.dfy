/**
  Flag image addresses for currency codes: the first two characters of a
  code, lower-cased, name a country on flagcdn.com; an empty code falls back
  to a placeholder image.
 */
module Flags {
  import opened Common

  const FlagBase := "https://flagcdn.com/24x18/"
  const FlagExt := ".png"
  const Placeholder := "https://via.placeholder.com/24x18"

  /** `code.slice(0, 2).toLowerCase()`, for the ASCII letters a currency code consists of. */
  function CountryCode(code: string): (cc: string)
    ensures |cc| == if |code| < 2 then |code| else 2
    ensures forall i :: 0 <= i < |cc| ==> cc[i] == LowerAscii(code[i])
  {
    var head := if |code| < 2 then code else code[..2];
    seq(|head|, i requires 0 <= i < |head| => LowerAscii(head[i]))
  }

  /** The image address the view uses for a (possibly empty) country code. */
  function FlagUrl(cc: string): string {
    if cc == [] then Placeholder else FlagBase + cc + FlagExt
  }

  /** Distinct country codes get distinct addresses, and no flag address is the placeholder. */
  lemma FlagUrlInjective(a: string, b: string)
    ensures FlagUrl(a) == FlagUrl(b) <==> a == b
    ensures a != [] ==> FlagUrl(a) != Placeholder
  {
    if a != [] {
      assert FlagUrl(a)[8] == 'f' != Placeholder[8];
    }
    if b != [] {
      assert FlagUrl(b)[8] == 'f' != Placeholder[8];
    }
    if a != [] && b != [] && FlagUrl(a) == FlagUrl(b) {
      assert |a| == |b|;
      assert a == FlagUrl(a)[|FlagBase|..|FlagBase| + |a|];
      assert b == FlagUrl(b)[|FlagBase|..|FlagBase| + |b|];
    }
  }
}
