/** The two pure rules inside the site searches: how NINI assigns the
    texts it read to the regular-price and offer columns, and which text
    CARREFOUR accepts as a selling price. */
module ScrapeRules {
  import opened Wrappers
  import opened Text

  const NotFound: string := "No encontrado"

  /** A regular-price text that counts as absent: empty, or never read. */
  predicate NoRegular(reg: string) {
    reg == "" || reg == NotFound
  }

  /** NINI's column assignment for the texts read from the product row: an
      offer text without a regular price moves to the regular-price column;
      the pair is reported only when something was found, otherwise the
      search keeps polling (`None`). */
  function NiniAssign(reg: string, offer: string): (r: Option<(string, string)>)
  {
    var swap := NoRegular(reg) && offer != "";
    var reg' := if swap then offer else reg;
    var offer' := if swap then "" else offer;
    if reg' != NotFound || offer' != "" then Some((reg', offer')) else None
  }

  /** What the assignment reports, case by case: a regular price keeps
      both texts; an offer alone becomes the regular price; with neither
      the search goes on. An offer is never reported without a regular
      price beside it. */
  lemma NiniAssignSpec(reg: string, offer: string)
    ensures !NoRegular(reg) ==> NiniAssign(reg, offer) == Some((reg, offer))
    ensures NoRegular(reg) && offer != "" && offer != NotFound ==> NiniAssign(reg, offer) == Some((offer, ""))
    ensures NiniAssign(reg, offer).None? <==>
      (reg == NotFound && offer == "") || (NoRegular(reg) && offer == NotFound)
    ensures NiniAssign(reg, offer).Some? && NiniAssign(reg, offer).value.1 != "" ==>
      !NoRegular(NiniAssign(reg, offer).value.0)
  {
  }

  /** An empty regular-price text with no offer is reported as found, with
      an empty price. */
  lemma NiniEmptyPriceReported()
    ensures NiniAssign("", "") == Some(("", ""))
  {
  }

  predicate IsDigit(c: char) {
    '0' <= c <= '9'
  }

  /** CARREFOUR's test on a selling-price text, after stripping: non-empty
      and holding a '$' or a digit. */
  predicate Accepted(text: string) {
    var t := Strip(text);
    t != "" && ('$' in t || exists i :: 0 <= i < |t| && IsDigit(t[i]))
  }

  /** The selling price CARREFOUR reports: the stripped text of the first
      accepted element, or 'No encontrado'. */
  function SellingPrice(texts: seq<string>): (p: string)
    ensures p == NotFound || exists i :: 0 <= i < |texts| && Accepted(texts[i]) && p == Strip(texts[i])
    ensures (forall i :: 0 <= i < |texts| ==> !Accepted(texts[i])) ==> p == NotFound
  {
    if texts == [] then NotFound
    else if Accepted(texts[0]) then Strip(texts[0])
    else
      var p := SellingPrice(texts[1..]);
      assert forall i :: 1 <= i < |texts| ==> texts[i] == texts[1..][i - 1];
      p
  }

  /** The loop over the price elements: the first accepted one wins. */
  method FirstAccepted(texts: seq<string>) returns (found: Option<nat>)
    ensures found.Some? ==> found.value < |texts| && Accepted(texts[found.value])
    ensures found.Some? ==> forall i :: 0 <= i < found.value ==> !Accepted(texts[i])
    ensures found.None? <==> forall i :: 0 <= i < |texts| ==> !Accepted(texts[i])
    ensures SellingPrice(texts) == if found.Some? then Strip(texts[found.value]) else NotFound
  {
    var i := 0;
    while i < |texts|
      invariant i <= |texts|
      invariant forall j :: 0 <= j < i ==> !Accepted(texts[j])
      invariant SellingPrice(texts) == SellingPrice(texts[i..])
    {
      if Accepted(texts[i]) {
        return Some(i);
      }
      assert texts[i..][1..] == texts[i + 1..];
      i := i + 1;
    }
    return None;
  }
}
