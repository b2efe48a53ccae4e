/**
 * The fleet shown in the services section, and the vehicle each card's "Book Now" link
 * pre-selects on the contact form.
 */
module Services {
  import opened Results
  import opened JsText
  import Contact

  /** A fleet card's text; the image and the icon are left out. */
  datatype Vehicle = Vehicle(name: JsString, category: JsString, features: seq<JsString>, idealFor: JsString)

  const LuxuryBus: Vehicle :=
    Vehicle(Str("Luxury Bus"), Str("Large Group"),
            [Str("40+ Seats"), Str("Push-back Seats"), Str("Ample Luggage"), Str("Mood Lighting")],
            Str("Weddings, School Trips, Corporate Events"))

  const TempoTraveller: Vehicle :=
    Vehicle(Str("Tempo Traveller"), Str("Mid-Sized Group"),
            [Str("12/14/17 Seater"), Str("AC / Non-AC"), Str("Music System"), Str("Comfortable Seating")],
            Str("Family Pilgrimages, Group Tours"))

  const InnovaCrysta: Vehicle :=
    Vehicle(Str("Innova Crysta / SUV"), Str("Family"),
            [Str("6+1 Seater"), Str("Captain Seats"), Str("Air Conditioned"), Str("Premium Comfort")],
            Str("Family Outings, Business Travel"))

  /** The `vehicles` list, in display order. */
  const Fleet: seq<Vehicle> := [LuxuryBus, TempoTraveller, InnovaCrysta]

  /** The vehicle a card's link carries in its navigation state. */
  function BookingVehicle(name: JsString): JsString
  {
    if name == InnovaCrysta.name then Contact.InnovaSuvOption else name
  }

  /** The navigation state of fleet card i's "Book Now" link. */
  function BookNowState(i: nat): Option<JsString>
    requires i < |Fleet|
  {
    Some(BookingVehicle(Fleet[i].name))
  }

  // ---------------------------------------------------------------------------------
  // Lemmas

  /** The Innova card is renamed to the form's option; every other name is passed on unchanged. */
  lemma BookingVehicleRenamesOnlyInnova(name: JsString)
    ensures name == InnovaCrysta.name ==> BookingVehicle(name) == Contact.InnovaSuvOption
    ensures name != InnovaCrysta.name ==> BookingVehicle(name) == name
    ensures BookingVehicle(name) != InnovaCrysta.name
  {
  }

  /** Renaming twice is renaming once. */
  lemma BookingVehicleIdempotent(name: JsString)
    ensures BookingVehicle(BookingVehicle(name)) == BookingVehicle(name)
  {
  }

  /** Every card pre-selects one of the form's vehicle options. */
  lemma FleetBooksVehicleOption(i: nat)
    requires i < |Fleet|
    ensures BookingVehicle(Fleet[i].name) in Contact.VehicleOptions
  {
    assert Fleet[2].name != Fleet[0].name by { assert |Fleet[2].name| != |Fleet[0].name|; }
  }

  /** Card names are distinct (they key the rendered list), and so are the vehicles they book. */
  lemma FleetNamesDistinct()
    ensures forall i, j | 0 <= i < |Fleet| && 0 <= j < |Fleet| :: Fleet[i].name == Fleet[j].name ==> i == j
    ensures forall i, j | 0 <= i < |Fleet| && 0 <= j < |Fleet| ::
              BookingVehicle(Fleet[i].name) == BookingVehicle(Fleet[j].name) ==> i == j
  {
    forall i, j | 0 <= i < |Fleet| && 0 <= j < |Fleet| && BookingVehicle(Fleet[i].name) == BookingVehicle(Fleet[j].name)
      ensures i == j
    {
      FleetBooksVehicleOption(i);
      assert |BookingVehicle(Fleet[i].name)| == |BookingVehicle(Fleet[j].name)|;
      if {i, j} == {0, 2} {
        assert BookingVehicle(Fleet[0].name)[0] != BookingVehicle(Fleet[2].name)[0];
      }
    }
  }

  /**
   * Following a card's link opens the form with that card's vehicle selected and accepted:
   * the fresh form's errors are the five required text fields and nothing else.
   */
  lemma BookNowPrefillsForm(i: nat)
    requires i < |Fleet|
    ensures Contact.DefaultValues(Contact.PreselectedVehicle(BookNowState(i))).vehiclePref in Contact.VehicleOptions
    ensures Contact.Errors(Contact.DefaultValues(Contact.PreselectedVehicle(BookNowState(i)))).Keys
            == {Contact.FullName, Contact.Phone, Contact.TripType, Contact.Seats, Contact.TravelDate}
  {
    FleetBooksVehicleOption(i);
    Contact.VehicleOptionsVerdict();
    Contact.DefaultValuesVerdict(BookNowState(i));
  }
}
