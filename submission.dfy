/** The "Submit booking" handler: the form is checked, every failed check adds a message
    to the error list, and only an empty list lets the booking be inserted. */
module Submission {
  import opened Wrappers
  import opened Text
  import opened Phone
  import opened Catalog
  import opened Store

  /** The messages of the error list. */
  datatype Error = NameRequired | PhoneRequired | PhoneInvalid | SuburbRequired | ConsentRequired | SlotJustBooked {
    function Message(): string {
      match this
      case NameRequired => "Name is required."
      case PhoneRequired => "Phone is required."
      case PhoneInvalid => "Phone number looks invalid."
      case SuburbRequired => "Suburb is required."
      case ConsentRequired => "You must confirm the details."
      case SlotJustBooked => "That time just got booked. Pick another slot."
    }
  }

  /** What the customer entered on the booking form. */
  datatype Form = Form(
    customerName: string, phone: string, suburb: string, address: string, bikeType: string,
    notes: string, consent: bool, serviceName: string, travelZone: string, addonsSelected: seq<string>)

  /** The choices of the form come from the price tables' own keys. */
  predicate Priced(catalog: Catalog, form: Form) {
    && form.serviceName in catalog.services
    && form.travelZone in catalog.zones
    && AllListed(catalog.addons, form.addonsSelected)
  }

  /** The `Booking(...)` the handler builds from an accepted form. */
  function BookingOf(catalog: Catalog, form: Form, day: int, time: string, createdAt: string): Booking
    requires Priced(catalog, form)
  {
    Booking(
      createdAt, Strip(form.customerName), NormalizePhone(Some(form.phone)), Strip(form.suburb),
      Strip(form.address), form.bikeType, form.serviceName, catalog.services[form.serviceName],
      AddonsLabel(form.addonsSelected), AddonsPrice(catalog.addons, form.addonsSelected),
      form.travelZone, catalog.zones[form.travelZone], day, time,
      if form.notes != "" then Strip(form.notes) else "", NEW)
  }

  /** The stored booking is new, holds the normalised phone, and its admin-view total is
      the total the customer was quoted. */
  lemma BookingOfQuote(catalog: Catalog, form: Form, day: int, time: string, createdAt: string)
    requires Priced(catalog, form)
    ensures var b := BookingOf(catalog, form, day, time, createdAt);
      && b.status == NEW
      && ' ' !in b.phone && '-' !in b.phone
      && b.bookingDate == day && b.bookingTime == time
      && Total(b) == QuotedTotal(catalog, form.serviceName, form.travelZone, form.addonsSelected)
  {
  }

  /** The checks of the handler all pass. */
  predicate Acceptable(form: Form, taken: bool, time: string) {
    && !AllSpace(form.customerName)
    && NormalizePhone(Some(form.phone)) != ""
    && IsValidPhone(NormalizePhone(Some(form.phone)))
    && !AllSpace(form.suburb)
    && form.consent
    && !(time != "" && taken)
  }

  /** The error list built from the outcomes of the checks, in the order the handler
      runs them: each failed check adds its message, and the invalid-phone check only
      runs on a phone that is present. */
  method ErrorList(nameBlank: bool, phoneEmpty: bool, phoneInvalid: bool, suburbBlank: bool, noConsent: bool, clash: bool)
    returns (errors: seq<Error>)
    ensures NameRequired in errors <==> nameBlank
    ensures PhoneRequired in errors <==> phoneEmpty
    ensures PhoneInvalid in errors <==> !phoneEmpty && phoneInvalid
    ensures SuburbRequired in errors <==> suburbBlank
    ensures ConsentRequired in errors <==> noConsent
    ensures SlotJustBooked in errors <==> clash
    ensures errors == [] <==> !nameBlank && !phoneEmpty && !phoneInvalid && !suburbBlank && !noConsent && !clash
  {
    errors := [];
    if nameBlank {
      errors := errors + [NameRequired];
    }
    if phoneEmpty {
      errors := errors + [PhoneRequired];
    } else if phoneInvalid {
      errors := errors + [PhoneInvalid];
    }
    if suburbBlank {
      errors := errors + [SuburbRequired];
    }
    if noConsent {
      errors := errors + [ConsentRequired];
    }
    if clash {
      errors := errors + [SlotJustBooked];
    }
  }

  /** The checks of the submit handler on the form; `taken` is `slot_taken` for the
      chosen date and time, which is only asked for a non-empty time. */
  method CheckForm(form: Form, time: string, taken: bool) returns (errors: seq<Error>)
    ensures NameRequired in errors <==> AllSpace(form.customerName)
    ensures PhoneRequired in errors <==> NormalizePhone(Some(form.phone)) == ""
    ensures PhoneInvalid in errors <==>
      NormalizePhone(Some(form.phone)) != "" && !IsValidPhone(NormalizePhone(Some(form.phone)))
    ensures SuburbRequired in errors <==> AllSpace(form.suburb)
    ensures ConsentRequired in errors <==> !form.consent
    ensures SlotJustBooked in errors <==> time != "" && taken
    ensures errors == [] <==> Acceptable(form, taken, time)
  {
    var p := NormalizePhone(Some(form.phone));
    StripSpec(form.customerName);
    StripSpec(form.suburb);
    errors := ErrorList(Strip(form.customerName) == "", p == "", !IsValidPhone(p), Strip(form.suburb) == "",
      !form.consent, time != "" && taken);
  }

  /** The submit handler for a booking on `day` at `time`, created at `createdAt`: the
      booking is inserted exactly when the error list is empty, and otherwise the table
      is left alone. */
  method SubmitBooking(table: BookingTable, catalog: Catalog, form: Form, day: int, time: string, createdAt: string)
    returns (errors: seq<Error>)
    requires table.Valid() && Priced(catalog, form)
    modifies table
    ensures table.Valid()
    ensures errors == [] <==> Acceptable(form, old(table.SlotTaken(day, time)), time)
    ensures errors == [] ==>
      && table.rows == old(table.rows) + [Row(old(table.nextId), BookingOf(catalog, form, day, time, createdAt))]
      && table.nextId == old(table.nextId) + 1
    ensures errors != [] ==> table.rows == old(table.rows) && table.nextId == old(table.nextId)
    ensures old(NoDoubleBooking(table.rows)) && time != "" ==> NoDoubleBooking(table.rows)
  {
    errors := CheckForm(form, time, table.SlotTaken(day, time));
    if errors == [] {
      var b := BookingOf(catalog, form, day, time, createdAt);
      ghost var before := table.rows;
      table.InsertBooking(b);
      if NoDoubleBooking(before) && time != "" {
        InsertKeepsNoDoubleBooking(before, Row(old(table.nextId), b));
      }
    }
  }
}
