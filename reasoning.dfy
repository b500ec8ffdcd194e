/** How every detector builds its final explanation: the deterministic
    component summary (the fallback) is kept, and the judge model's prose,
    when the call succeeded with a non-empty stripped text, is put in front
    of it. A failed call (any exception) or an empty text leaves the
    fallback alone. */
module Reasoning {
  import opened Common

  const Separator: string := "\n\nComponent summary: "

  /** The judge produced a usable explanation: the call returned and its stripped text is non-empty. */
  predicate Generated(gen: Outcome<string>) {
    gen.Ok? && gen.value != ""
  }

  /** `reasoning = fallback`, then `reasoning = gen_text + Separator + fallback` when `gen_text` is non-empty. */
  function Compose(gen: Outcome<string>, fallback: string): (r: string)
    ensures HasSuffix(r, fallback)
    ensures Generated(gen) ==> gen.value <= r
    ensures !Generated(gen) ==> r == fallback
  {
    if Generated(gen) then gen.value + Separator + fallback else fallback
  }

  /** The explanation is longer than the summary exactly when the judge's prose was used;
      the summary is then preceded by the separator, and the prose can be read back. */
  lemma ComposeAddsProseIffGenerated(gen: Outcome<string>, fallback: string)
    ensures |Compose(gen, fallback)| > |fallback| <==> Generated(gen)
    ensures Generated(gen) ==>
              var r := Compose(gen, fallback);
              |r| == |gen.value| + |Separator| + |fallback|
              && r[..|gen.value|] == gen.value
              && r[|gen.value|..|gen.value| + |Separator|] == Separator
  {
    if Generated(gen) {
      var r := Compose(gen, fallback);
      assert r[|gen.value|..|gen.value| + |Separator|] == Separator;
    }
  }
}
