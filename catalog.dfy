/** The price list and the money arithmetic of the booking form: the SERVICES, ADDONS
    and TRAVEL_ZONES tables, the add-ons sum, the quoted total and `money`. */
module Catalog {
  import opened Wrappers
  import opened Text
  import opened Numbers

  /** The three price tables, each from the label shown to the customer to whole dollars. */
  datatype Catalog = Catalog(services: map<string, int>, addons: map<string, int>, zones: map<string, int>) {
    /** No price is negative. */
    predicate Valid() {
      && (forall k :: k in services ==> services[k] >= 0)
      && (forall k :: k in addons ==> addons[k] >= 0)
      && (forall k :: k in zones ==> zones[k] >= 0)
    }
  }

  /** The prices the app ships with. */
  const CATALOG := Catalog(
    map[
      "Safety Tune ($99)" := 99,
      "Full Service ($189)" := 189,
      "Family / 2 Bikes ($299)" := 299,
      "Family / 3 Bikes ($420)" := 420],
    map[
      "Tube install labour (+$35)" := 35,
      "Brake pads install labour (+$40)" := 40,
      "Chain install labour (+$40)" := 40,
      "Deep drivetrain clean (+$60)" := 60,
      "E-bike inspection (+$40)" := 40],
    map[
      "Included area (no travel fee)" := 0,
      "Outside area (+$20 travel fee)" := 20,
      "Farther area (+$40 travel fee)" := 40])

  predicate AllListed(addons: map<string, int>, selected: seq<string>) {
    forall i :: 0 <= i < |selected| ==> selected[i] in addons
  }

  /** `sum(ADDONS[a] for a in addons_selected)`. */
  function AddonsPrice(addons: map<string, int>, selected: seq<string>): int
    requires AllListed(addons, selected)
  {
    if selected == [] then 0 else addons[selected[0]] + AddonsPrice(addons, selected[1..])
  }

  /** With non-negative prices the add-ons never lower the total. */
  lemma {:induction false} AddonsPriceNonNegative(addons: map<string, int>, selected: seq<string>)
    requires AllListed(addons, selected)
    requires forall k :: k in addons ==> addons[k] >= 0
    ensures AddonsPrice(addons, selected) >= 0
  {
    if selected != [] {
      AddonsPriceNonNegative(addons, selected[1..]);
    }
  }

  /** The add-ons price of two selections one after the other is the sum of their prices. */
  lemma {:induction false} AddonsPriceAppend(addons: map<string, int>, a: seq<string>, b: seq<string>)
    requires AllListed(addons, a) && AllListed(addons, b)
    ensures AllListed(addons, a + b)
    ensures AddonsPrice(addons, a + b) == AddonsPrice(addons, a) + AddonsPrice(addons, b)
  {
    if a != [] {
      assert (a + b)[1..] == a[1..] + b;
      AddonsPriceAppend(addons, a[1..], b);
    } else {
      assert a + b == b;
    }
  }

  /** The order in which add-ons are ticked does not change their price. */
  lemma {:induction false} AddonsPriceOrderFree(addons: map<string, int>, a: seq<string>, b: seq<string>)
    requires AllListed(addons, a) && multiset(a) == multiset(b)
    ensures AllListed(addons, b)
    ensures AddonsPrice(addons, a) == AddonsPrice(addons, b)
    decreases |a|
  {
    forall i | 0 <= i < |b| ensures b[i] in addons {
      assert b[i] in multiset(a);
    }
    if a != [] {
      assert a[0] in multiset(b);
      var j :| 0 <= j < |b| && b[j] == a[0];
      MultisetRemove(a, b, j);
      AddonsPriceRemove(addons, b, j);
      AddonsPriceOrderFree(addons, a[1..], b[..j] + b[j + 1..]);
    } else {
      assert b == [];
    }
  }

  /** Taking the first element off `a` and a matching one off `b` keeps the two
      multisets equal. */
  lemma MultisetRemove<T>(a: seq<T>, b: seq<T>, j: nat)
    requires a != [] && multiset(a) == multiset(b) && j < |b| && b[j] == a[0]
    ensures multiset(a[1..]) == multiset(b[..j] + b[j + 1..])
  {
    assert a == [a[0]] + a[1..];
    assert b == b[..j] + [b[j]] + b[j + 1..];
    assert multiset(a[1..]) == multiset(a) - multiset{a[0]};
    assert multiset(b[..j] + b[j + 1..]) == multiset(b) - multiset{b[j]};
  }

  /** The price of a selection is the price of any one of its add-ons plus the price
      of the rest. */
  lemma AddonsPriceRemove(addons: map<string, int>, b: seq<string>, j: nat)
    requires AllListed(addons, b) && j < |b|
    ensures AllListed(addons, b[..j] + b[j + 1..])
    ensures AddonsPrice(addons, b) == addons[b[j]] + AddonsPrice(addons, b[..j] + b[j + 1..])
  {
    assert b == b[..j] + ([b[j]] + b[j + 1..]);
    AddonsPriceAppend(addons, b[..j], [b[j]] + b[j + 1..]);
    AddonsPriceAppend(addons, b[..j], b[j + 1..]);
    assert ([b[j]] + b[j + 1..])[1..] == b[j + 1..];
  }

  /** `total = SERVICES[service_name] + travel_fee + addons_price`, the total the
      customer is quoted. */
  function QuotedTotal(catalog: Catalog, service: string, zone: string, selected: seq<string>): int
    requires service in catalog.services && zone in catalog.zones && AllListed(catalog.addons, selected)
  {
    catalog.services[service] + catalog.zones[zone] + AddonsPrice(catalog.addons, selected)
  }

  /** A quote is never below the service price plus the travel fee, and with the add-ons
      left out it is exactly that. */
  lemma QuotedTotalBounds(catalog: Catalog, service: string, zone: string, selected: seq<string>)
    requires catalog.Valid()
    requires service in catalog.services && zone in catalog.zones && AllListed(catalog.addons, selected)
    ensures QuotedTotal(catalog, service, zone, selected) >= catalog.services[service] + catalog.zones[zone]
    ensures selected == [] ==> QuotedTotal(catalog, service, zone, selected) == catalog.services[service] + catalog.zones[zone]
  {
    AddonsPriceNonNegative(catalog.addons, selected);
  }

  /** `money(n)`: `f"${n}"`. */
  function Money(n: int): (r: string)
    ensures |r| >= 2 && r[0] == '$'
  {
    "$" + IntToDecimal(n)
  }

  /** The amount can be read back from its `money` text, so different amounts are
      shown differently. */
  lemma MoneyRoundTrip(n: int)
    ensures ParseInt(Money(n)[1..]) == Some(n)
  {
    assert Money(n)[1..] == IntToDecimal(n);
    ParseIntToDecimal(n);
  }

  /** `", ".join(addons_selected) if addons_selected else "None"`, the add-ons column
      of a booking. */
  function AddonsLabel(selected: seq<string>): string {
    if selected == [] then "None" else Join(selected, ", ")
  }

  /** As long as no add-on is itself called "None", the column reads "None" exactly
      when nothing was ticked. */
  lemma AddonsLabelNone(selected: seq<string>)
    requires forall i :: 0 <= i < |selected| ==> selected[i] != "None"
    ensures AddonsLabel(selected) == "None" <==> selected == []
  {
    if |selected| >= 2 {
      var text := AddonsLabel(selected);
      assert text == selected[0] + ", " + Join(selected[1..], ", ");
      assert text[|selected[0]|] == ',';
      assert ',' !in "None";
    }
  }

  /** No shipped add-on is called "None". */
  lemma ShippedAddonsNotNone()
    ensures "None" !in CATALOG.addons
  {
  }

  /** The shipped prices are all non-negative. */
  lemma ShippedCatalogValid()
    ensures CATALOG.Valid()
  {
    NonNegativeServices();
    NonNegativeAddons();
    NonNegativeZones();
  }

  lemma NonNegativeServices()
    ensures forall k :: k in CATALOG.services ==> CATALOG.services[k] >= 0
  {
  }

  lemma NonNegativeAddons()
    ensures forall k :: k in CATALOG.addons ==> CATALOG.addons[k] >= 0
  {
  }

  lemma NonNegativeZones()
    ensures forall k :: k in CATALOG.zones ==> CATALOG.zones[k] >= 0
  {
  }
}
