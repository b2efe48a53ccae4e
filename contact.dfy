/**
 * The booking-inquiry form of the contact page: the zod schema each field must satisfy, the
 * per-field errors the form shows, the WhatsApp message built from a valid submission, and
 * the deep link the message is sent through.
 */
module Contact {
  import opened Results
  import opened JsText
  import opened UriCodec
  import NumberInput

  datatype Field =
    | FullName | Phone | TripType | VehiclePref | Seats | TravelDate | PickupLocation | DropLocation

  const AllFields: set<Field> :=
    {FullName, Phone, TripType, VehiclePref, Seats, TravelDate, PickupLocation, DropLocation}

  /** The submitted values; every field is a string (`z.infer<typeof formSchema>`). */
  datatype FormData = FormData(
    fullName: JsString, phone: JsString, tripType: JsString, vehiclePref: JsString,
    seats: JsString, travelDate: JsString, pickupLocation: JsString, dropLocation: JsString)

  function Value(d: FormData, f: Field): JsString
  {
    match f
    case FullName => d.fullName
    case Phone => d.phone
    case TripType => d.tripType
    case VehiclePref => d.vehiclePref
    case Seats => d.seats
    case TravelDate => d.travelDate
    case PickupLocation => d.pickupLocation
    case DropLocation => d.dropLocation
  }

  /** The form with one field set to a new value (react-hook-form's setValue). */
  function WithValue(d: FormData, f: Field, v: JsString): (r: FormData)
    ensures Value(r, f) == v
    ensures forall g :: g != f ==> Value(r, g) == Value(d, g)
  {
    match f
    case FullName => d.(fullName := v)
    case Phone => d.(phone := v)
    case TripType => d.(tripType := v)
    case VehiclePref => d.(vehiclePref := v)
    case Seats => d.(seats := v)
    case TravelDate => d.(travelDate := v)
    case PickupLocation => d.(pickupLocation := v)
    case DropLocation => d.(dropLocation := v)
  }

  // ---------------------------------------------------------------------------------
  // Validation (formSchema)

  /** A `.min(n, message)` check. */
  datatype MinCheck = MinCheck(length: nat, message: JsString)

  /** `z.string()` followed by an optional `.min` and an optional `.max`; lengths count code units. */
  datatype StringSchema = StringSchema(min: Option<MinCheck>, max: Option<nat>)

  /** The issue a failed check reports; `.max` uses the library's default message. */
  datatype Issue = TooSmall(minimum: nat, message: JsString) | TooBig(maximum: nat)

  const NameMessage: JsString := Str("Name must be at least 2 characters")
  const PhoneMessage: JsString := Str("Please enter a valid phone number")
  const TripTypeMessage: JsString := Str("Please select a trip type")
  const VehicleMessage: JsString := Str("Please select a vehicle")
  const SeatsMessage: JsString := Str("Please enter number of passengers")
  const TravelDateMessage: JsString := Str("Please select a travel date")

  function Schema(f: Field): StringSchema
  {
    match f
    case FullName => StringSchema(Some(MinCheck(2, NameMessage)), Some(100))
    case Phone => StringSchema(Some(MinCheck(10, PhoneMessage)), Some(15))
    case TripType => StringSchema(Some(MinCheck(1, TripTypeMessage)), None)
    case VehiclePref => StringSchema(Some(MinCheck(1, VehicleMessage)), None)
    case Seats => StringSchema(Some(MinCheck(1, SeatsMessage)), None)
    case TravelDate => StringSchema(Some(MinCheck(1, TravelDateMessage)), None)
    case PickupLocation => StringSchema(None, None)
    case DropLocation => StringSchema(None, None)
  }

  /** The first issue of a value under a schema: the checks run in order and the form shows the first. */
  function FirstIssue(schema: StringSchema, v: JsString): Option<Issue>
  {
    if schema.min.Some? && |v| < schema.min.value.length then
      Some(TooSmall(schema.min.value.length, schema.min.value.message))
    else if schema.max.Some? && |v| > schema.max.value then
      Some(TooBig(schema.max.value))
    else None
  }

  predicate Accepts(f: Field, v: JsString)
  {
    FirstIssue(Schema(f), v).None?
  }

  /**
   * The errors a submission computes, and the form then shows: one issue for every field that
   * fails its schema. Before the first submission the form shows none (react-hook-form's
   * default "onSubmit" mode).
   */
  function Errors(d: FormData): map<Field, Issue>
  {
    map f | f in AllFields && FirstIssue(Schema(f), Value(d, f)).Some? :: FirstIssue(Schema(f), Value(d, f)).value
  }

  /** The options of the vehicle select, after its empty "Select vehicle" placeholder. */
  const VehicleOptions: seq<JsString> := [InnovaSuvOption, TempoOption, LuxuryBusOption, SedanOption]

  const InnovaSuvOption: JsString := Str("Innova/SUV")
  const TempoOption: JsString := Str("Tempo Traveller")
  const LuxuryBusOption: JsString := Str("Luxury Bus")
  const SedanOption: JsString := Str("Sedan")

  // ---------------------------------------------------------------------------------
  // Default values and the vehicle pre-selected by navigation

  /** `location.state?.vehicle || ""`, for navigation state that carries a string or nothing. */
  function PreselectedVehicle(navState: Option<JsString>): JsString
  {
    match navState
    case Some(v) => v
    case None => []
  }

  /** The form's defaultValues. */
  function DefaultValues(preselected: JsString): FormData
  {
    FormData([], [], [], preselected, [], [], [], [])
  }

  /** The effect that copies a non-empty pre-selected vehicle into the form. */
  function ApplyPreselection(d: FormData, preselected: JsString): FormData
  {
    if preselected != [] then WithValue(d, VehiclePref, preselected) else d
  }

  // ---------------------------------------------------------------------------------
  // The WhatsApp message (generateWhatsAppMessage) and the deep link (handleWhatsApp)

  const Greeting: JsString := Str("Hello Bright Tours!")
  const Header: JsString := Str("*New Booking Inquiry*")
  const Closing: JsString := Str("Please provide a quote.")

  /** The fields in the order of their message lines. */
  const MessageFields: seq<Field> :=
    [FullName, Phone, TripType, VehiclePref, Seats, TravelDate, PickupLocation, DropLocation]

  const NameLabel: JsString := Str("*Name:* ")
  const PhoneLabel: JsString := Str("*Phone:* ")
  const TripTypeLabel: JsString := Str("*Trip Type:* ")
  const VehicleLabel: JsString := Str("*Vehicle:* ")
  const PassengersLabel: JsString := Str("*Passengers:* ")
  const DateLabel: JsString := Str("*Date:* ")
  const FromLabel: JsString := Str("*From:* ")
  const ToLabel: JsString := Str("*To:* ")

  function Label(f: Field): JsString
  {
    match f
    case FullName => NameLabel
    case Phone => PhoneLabel
    case TripType => TripTypeLabel
    case VehiclePref => VehicleLabel
    case Seats => PassengersLabel
    case TravelDate => DateLabel
    case PickupLocation => FromLabel
    case DropLocation => ToLabel
  }

  /** A field's line: its label followed by the submitted value, unchanged. */
  function FieldLine(d: FormData, f: Field): JsString
  {
    Label(f) + Value(d, f)
  }

  /** The 14 lines of the message: greeting, blank, header, blank, the field lines, blank, closing. */
  function MessageLines(d: FormData): seq<JsString>
  {
    [Greeting, [], Header, []]
    + seq(|MessageFields|, k requires 0 <= k < |MessageFields| => FieldLine(d, MessageFields[k]))
    + [[], Closing]
  }

  /** `lines.join("\n")` */
  function MessageText(d: FormData): JsString
  {
    Join(MessageLines(d), [LineFeed])
  }

  /** generateWhatsAppMessage: the encoded message, or the URIError encodeURIComponent throws. */
  function GenerateWhatsAppMessage(d: FormData): Result<JsString, URIError>
  {
    EncodeURIComponent(MessageText(d))
  }

  const WhatsAppPrefix: JsString := Str("https://wa.me/919035119555?text=")

  /** The URL handleWhatsApp opens. */
  function WhatsAppUrl(d: FormData): Result<JsString, URIError>
  {
    match GenerateWhatsAppMessage(d)
    case Ok(m) => Ok(WhatsAppPrefix + m)
    case Err(e) => Err(e)
  }

  /** What pressing the submit button does. */
  datatype SubmitOutcome =
    | NotSubmitted
    | Blocked(errors: map<Field, Issue>)
    | OpenedWindow(url: JsString)
    | Threw(error: URIError)

  /**
   * The browser's own constraint validation lets the submit event fire. It fails when the
   * passenger count's number input rejects its text, and when the travel date box holds a
   * partly typed date (`dateBadInput`): the box then reports bad input and its value is "".
   */
  predicate BrowserAccepts(d: FormData, dateBadInput: bool)
  {
    !dateBadInput && NumberInput.AcceptsValue(d.seats)
  }

  /**
   * Pressing the submit button. When the browser's constraint validation fails, the submit
   * event never fires. Otherwise handleSubmit(onSubmit) validates every field, and only a
   * fully valid form reaches onSubmit.
   */
  function Submit(d: FormData, dateBadInput: bool): SubmitOutcome
  {
    var errors := Errors(d);
    if !BrowserAccepts(d, dateBadInput) then NotSubmitted
    else if errors != map[] then Blocked(errors)
    else
      match WhatsAppUrl(d)
      case Ok(url) => OpenedWindow(url)
      case Err(e) => Threw(e)
  }

  // ---------------------------------------------------------------------------------
  // Reading a message back: the partner of the serialiser

  predicate HasPrefix(line: JsString, prefix: JsString)
  {
    |prefix| <= |line| && line[..|prefix|] == prefix
  }

  /** The value on a field line, after its label. */
  function FieldValue(lines: seq<JsString>, k: nat): JsString
    requires k < |MessageFields| && 4 + k < |lines|
  {
    var line := lines[4 + k];
    var n := |Label(MessageFields[k])|;
    if n <= |line| then line[n..] else []
  }

  /** Recover the form from a message text laid out as the serialiser lays it out. */
  function ParseMessage(text: JsString): Option<FormData>
  {
    var ls := SplitOn(text, LineFeed);
    if |ls| == 14 && ls[0] == Greeting && ls[1] == [] && ls[2] == Header && ls[3] == []
       && ls[12] == [] && ls[13] == Closing
       && (forall k | 0 <= k < |MessageFields| :: HasPrefix(ls[4 + k], Label(MessageFields[k])))
    then Some(FormFromLines(ls))
    else None
  }

  /** The form whose values are read from the eight field lines. */
  function FormFromLines(ls: seq<JsString>): (d: FormData)
    requires |ls| >= 12
    ensures forall f :: Value(d, f) == FieldValue(ls, LineIndex(f))
  {
    FormData(FieldValue(ls, 0), FieldValue(ls, 1), FieldValue(ls, 2), FieldValue(ls, 3),
             FieldValue(ls, 4), FieldValue(ls, 5), FieldValue(ls, 6), FieldValue(ls, 7))
  }

  /** Recover the form from a deep link. */
  function ParseWhatsAppUrl(url: JsString): Option<FormData>
  {
    if HasPrefix(url, WhatsAppPrefix) then
      match DecodeURIComponent(url[|WhatsAppPrefix|..])
      case Ok(text) => ParseMessage(text)
      case Err(_) => None
    else None
  }

  /** Text inputs, selects and date inputs cannot hold a line break. */
  predicate HasNoLineBreak(d: FormData)
  {
    forall f :: LineFeed !in Value(d, f)
  }

  predicate IsWellFormedForm(d: FormData)
  {
    forall f :: IsWellFormed(Value(d, f))
  }

  // ---------------------------------------------------------------------------------
  // Lemmas: validation

  /** full_name passes exactly when it has 2 to 100 code units. */
  lemma FullNameVerdict(v: JsString)
    ensures Accepts(FullName, v) <==> 2 <= |v| <= 100
    ensures |v| < 2 ==> FirstIssue(Schema(FullName), v) == Some(TooSmall(2, NameMessage))
    ensures |v| > 100 ==> FirstIssue(Schema(FullName), v) == Some(TooBig(100))
  {
  }

  /** phone passes exactly when it has 10 to 15 code units, whatever they are. */
  lemma PhoneVerdict(v: JsString)
    ensures Accepts(Phone, v) <==> 10 <= |v| <= 15
    ensures |v| < 10 ==> FirstIssue(Schema(Phone), v) == Some(TooSmall(10, PhoneMessage))
    ensures |v| > 15 ==> FirstIssue(Schema(Phone), v) == Some(TooBig(15))
  {
  }

  /** trip_type, vehicle_pref, seats and travel_date are rejected exactly when empty. */
  lemma RequiredFieldVerdict(f: Field, v: JsString)
    requires f in {TripType, VehiclePref, Seats, TravelDate}
    ensures Accepts(f, v) <==> v != []
    ensures v == [] ==> FirstIssue(Schema(f), v).Some? && FirstIssue(Schema(f), v).value.TooSmall?
  {
  }

  /** The two location fields never cause a rejection, empty or not. */
  lemma LocationsUnchecked(v: JsString)
    ensures Accepts(PickupLocation, v) && Accepts(DropLocation, v)
  {
  }

  /** The position of a field's line among the field lines. */
  function LineIndex(f: Field): (k: nat)
    ensures k < |MessageFields| && MessageFields[k] == f
  {
    match f
    case FullName => 0
    case Phone => 1
    case TripType => 2
    case VehiclePref => 3
    case Seats => 4
    case TravelDate => 5
    case PickupLocation => 6
    case DropLocation => 7
  }

  lemma FieldInAllFields(f: Field)
    ensures f in AllFields
  {
  }

  /** The error map holds exactly the failing fields, each with the issue its schema reports. */
  lemma ErrorsArePerField(d: FormData)
    ensures forall f :: f in Errors(d) <==> !Accepts(f, Value(d, f))
    ensures forall f :: f in Errors(d) ==> FirstIssue(Schema(f), Value(d, f)) == Some(Errors(d)[f])
  {
    forall f ensures f in AllFields {
      FieldInAllFields(f);
    }
  }

  /** One field's entry in the error map. */
  lemma ErrorsAt(d: FormData, g: Field)
    ensures g in Errors(d) <==> !Accepts(g, Value(d, g))
    ensures g in Errors(d) ==> Some(Errors(d)[g]) == FirstIssue(Schema(g), Value(d, g))
  {
    FieldInAllFields(g);
  }

  /** Another field's entry in the error map does not depend on this field's value. */
  lemma ErrorsAtOtherField(d: FormData, f: Field, v: JsString, g: Field)
    requires g != f
    ensures g in Errors(WithValue(d, f, v)) <==> g in Errors(d)
    ensures g in Errors(d) ==> Errors(WithValue(d, f, v))[g] == Errors(d)[g]
  {
    ErrorsAt(d, g);
    ErrorsAt(WithValue(d, f, v), g);
  }

  /** The error map is empty exactly when every field passes. */
  lemma ErrorsEmptyIff(d: FormData)
    ensures Errors(d) == map[] <==> forall f :: Accepts(f, Value(d, f))
  {
    if forall f :: Accepts(f, Value(d, f)) {
      forall f ensures f !in Errors(d) { ErrorsAt(d, f); }
    } else {
      var f :| !Accepts(f, Value(d, f));
      ErrorsAt(d, f);
    }
  }

  /** Changing one field leaves the verdict of every other field as it was. */
  lemma ErrorsIsolated(d: FormData, f: Field, v: JsString)
    ensures Errors(WithValue(d, f, v)) - {f} == Errors(d) - {f}
    ensures f in Errors(WithValue(d, f, v)) <==> !Accepts(f, v)
  {
    var e, e' := Errors(d) - {f}, Errors(WithValue(d, f, v)) - {f};
    forall g ensures (g in e' <==> g in e) && (g in e ==> e'[g] == e[g]) {
      if g != f { ErrorsAtOtherField(d, f, v, g); }
    }
    ErrorsAt(WithValue(d, f, v), f);
  }

  /** Replacing a passing value by another passing value changes no verdict at all. */
  lemma ErrorsUnchangedByPassingEdit(d: FormData, f: Field, v: JsString)
    requires Accepts(f, Value(d, f)) && Accepts(f, v)
    ensures Errors(WithValue(d, f, v)) == Errors(d)
  {
    var e, e' := Errors(d), Errors(WithValue(d, f, v));
    ErrorsAt(d, f);
    ErrorsAt(WithValue(d, f, v), f);
    forall g ensures (g in e' <==> g in e) && (g in e ==> e'[g] == e[g]) {
      if g != f { ErrorsAtOtherField(d, f, v, g); }
    }
  }

  /** Every option of the vehicle select passes; its empty placeholder does not. */
  lemma VehicleOptionsVerdict()
    ensures forall i | 0 <= i < |VehicleOptions| :: Accepts(VehiclePref, VehicleOptions[i])
    ensures !Accepts(VehiclePref, [])
  {
  }

  /** A fresh form shows errors on the five required text fields; the vehicle follows navigation. */
  lemma DefaultValuesVerdict(navState: Option<JsString>)
    ensures Errors(DefaultValues(PreselectedVehicle(navState))).Keys
            == {FullName, Phone, TripType, Seats, TravelDate}
               + (if PreselectedVehicle(navState) == [] then {VehiclePref} else {})
  {
    ErrorsArePerField(DefaultValues(PreselectedVehicle(navState)));
  }

  /** The pre-selection effect changes the vehicle only, and only to a non-empty value. */
  lemma ApplyPreselectionEffect(d: FormData, preselected: JsString)
    ensures Value(ApplyPreselection(d, preselected), VehiclePref)
            == (if preselected != [] then preselected else d.vehiclePref)
    ensures forall g :: g != VehiclePref ==> Value(ApplyPreselection(d, preselected), g) == Value(d, g)
    ensures preselected != [] ==> VehiclePref !in Errors(ApplyPreselection(d, preselected))
  {
    if preselected != [] {
      ErrorsArePerField(ApplyPreselection(d, preselected));
    }
  }

  // ---------------------------------------------------------------------------------
  // Lemmas: message layout and round trips

  lemma LabelShape(f: Field)
    ensures |Label(f)| > 0 && HasNoSurrogate(Label(f))
    ensures LineFeed !in Label(f)
  {
  }

  /** With no line break inside a field, the message text splits back into its 14 lines. */
  lemma MessageSplitsIntoLines(d: FormData)
    requires HasNoLineBreak(d)
    ensures SplitOn(MessageText(d), LineFeed) == MessageLines(d)
  {
    var ls := MessageLines(d);
    forall f ensures LineFeed !in FieldLine(d, f) {
      LabelShape(f);
    }
    assert LineFeed !in Greeting && LineFeed !in Header && LineFeed !in Closing;
    assert forall k | 4 <= k < 12 :: ls[k] == FieldLine(d, MessageFields[k - 4]);
    SplitJoin(ls, LineFeed);
  }

  /**
   * The message is 14 lines in a fixed order: greeting, blank, header, blank, the eight field
   * lines, blank, closing; each field line is its label followed by the value unchanged.
   */
  lemma MessageLayout(d: FormData)
    requires HasNoLineBreak(d)
    ensures var ls := SplitOn(MessageText(d), LineFeed);
      && |ls| == 14
      && ls[0] == Greeting && ls[1] == [] && ls[2] == Header && ls[3] == []
      && ls[4] == NameLabel + d.fullName
      && ls[5] == PhoneLabel + d.phone
      && ls[6] == TripTypeLabel + d.tripType
      && ls[7] == VehicleLabel + d.vehiclePref
      && ls[8] == PassengersLabel + d.seats
      && ls[9] == DateLabel + d.travelDate
      && ls[10] == FromLabel + d.pickupLocation
      && ls[11] == ToLabel + d.dropLocation
      && ls[12] == [] && ls[13] == Closing
  {
    MessageSplitsIntoLines(d);
  }

  /** Parsing the message gives back the submitted form. */
  lemma ParseMessageRoundTrip(d: FormData)
    requires HasNoLineBreak(d)
    ensures ParseMessage(MessageText(d)) == Some(d)
  {
    MessageSplitsIntoLines(d);
    var ls := MessageLines(d);
    forall k | 0 <= k < |MessageFields|
      ensures HasPrefix(ls[4 + k], Label(MessageFields[k]))
    {
      MessageFieldLine(d, k);
    }
    FormFromMessageLines(d);
  }

  /** The k-th field line of a message carries the field's label, followed by its value. */
  lemma MessageFieldLine(d: FormData, k: nat)
    requires k < |MessageFields|
    ensures HasPrefix(MessageLines(d)[4 + k], Label(MessageFields[k]))
    ensures FieldValue(MessageLines(d), k) == Value(d, MessageFields[k])
  {
    var f := MessageFields[k];
    var line := MessageLines(d)[4 + k];
    assert line == FieldLine(d, f);
    assert line[..|Label(f)|] == Label(f);
    assert line[|Label(f)|..] == Value(d, f);
  }

  /** Reading the field lines of a form's message gives back the form. */
  lemma FormFromMessageLines(d: FormData)
    ensures FormFromLines(MessageLines(d)) == d
  {
    var e := FormFromLines(MessageLines(d));
    forall f ensures Value(e, f) == Value(d, f) {
      var k := LineIndex(f);
      MessageFieldLine(d, k);
    }
  }

  lemma LineIndexOfMessageField(k: nat)
    requires k < |MessageFields|
    ensures LineIndex(MessageFields[k]) == k
  {
  }

  /** A field line that carries its label is that label followed by the value read from it. */
  lemma FieldLineOfParsed(ls: seq<JsString>, k: nat)
    requires k < |MessageFields| && 4 + k < |ls|
    requires HasPrefix(ls[4 + k], Label(MessageFields[k]))
    ensures Label(MessageFields[k]) + FieldValue(ls, k) == ls[4 + k]
  {
    var n := |Label(MessageFields[k])|;
    assert ls[4 + k][..n] + ls[4 + k][n..] == ls[4 + k];
  }

  /** The lines of the form ParseMessage returns are the lines it read. */
  lemma ParsedLines(ls: seq<JsString>)
    requires |ls| == 14 && ls[0] == Greeting && ls[1] == [] && ls[2] == Header && ls[3] == []
    requires ls[12] == [] && ls[13] == Closing
    requires forall k | 0 <= k < |MessageFields| :: HasPrefix(ls[4 + k], Label(MessageFields[k]))
    ensures MessageLines(FormFromLines(ls)) == ls
  {
    var d := FormFromLines(ls);
    forall j | 0 <= j < |MessageFields|
      ensures ls[4 + j] == Label(MessageFields[j]) + Value(d, MessageFields[j])
    {
      LineIndexOfMessageField(j);
      FieldLineOfParsed(ls, j);
    }
    MessageLinesAre(d, ls);
  }

  /** Fourteen lines laid out as a form's message are that form's message lines. */
  lemma MessageLinesAre(d: FormData, ls: seq<JsString>)
    requires |ls| == 14 && ls[0] == Greeting && ls[1] == [] && ls[2] == Header && ls[3] == []
    requires ls[12] == [] && ls[13] == Closing
    requires forall j | 0 <= j < |MessageFields| ::
               ls[4 + j] == Label(MessageFields[j]) + Value(d, MessageFields[j])
    ensures MessageLines(d) == ls
  {
    var ms := MessageLines(d);
    assert forall k | 0 <= k < 14 :: ms[k] == ls[k];
  }

  /** Whatever ParseMessage accepts is exactly the message of the form it returns. */
  lemma ParseMessageSound(text: JsString)
    ensures ParseMessage(text).Some? ==> MessageText(ParseMessage(text).value) == text
  {
    var ls := SplitOn(text, LineFeed);
    if ParseMessage(text).Some? {
      ParsedLines(ls);
      JoinSplit(text, LineFeed);
    }
  }

  /** The message text is well formed exactly when every field value is. */
  lemma MessageTextWellFormed(d: FormData)
    ensures IsWellFormed(MessageText(d)) <==> IsWellFormedForm(d)
  {
    WellFormedJoin(MessageLines(d), LineFeed);
    MessageLinesWellFormed(d);
  }

  /** A field line is well formed exactly when its value is, since no label holds a surrogate. */
  lemma FieldLineWellFormed(d: FormData, f: Field)
    ensures IsWellFormed(FieldLine(d, f)) <==> IsWellFormed(Value(d, f))
  {
    LabelShape(f);
    NoSurrogateWellFormed(Label(f));
    WellFormedConcat(Label(f), Value(d, f));
  }

  /** A fixed message line is always well formed; a field line exactly when its value is. */
  lemma MessageLineWellFormed(d: FormData, k: nat)
    requires k < |MessageLines(d)|
    ensures IsWellFormed(MessageLines(d)[k]) <==>
              (4 <= k < 12 ==> IsWellFormed(Value(d, MessageFields[k - 4])))
  {
    var ls := MessageLines(d);
    if k < 4 || 12 <= k {
      assert ls[k] in {Greeting, [], Header, Closing};
      NoSurrogateWellFormed(Greeting);
      NoSurrogateWellFormed(Header);
      NoSurrogateWellFormed(Closing);
    } else {
      assert ls[k] == FieldLine(d, MessageFields[k - 4]);
      FieldLineWellFormed(d, MessageFields[k - 4]);
    }
  }

  /** Every message line is well formed exactly when every field value is. */
  lemma MessageLinesWellFormed(d: FormData)
    ensures (forall k | 0 <= k < |MessageLines(d)| :: IsWellFormed(MessageLines(d)[k]))
            <==> IsWellFormedForm(d)
  {
    var ls := MessageLines(d);
    if IsWellFormedForm(d) {
      forall k | 0 <= k < |ls| ensures IsWellFormed(ls[k]) {
        MessageLineWellFormed(d, k);
      }
    }
    if forall k | 0 <= k < |ls| :: IsWellFormed(ls[k]) {
      forall f ensures IsWellFormed(Value(d, f)) {
        MessageLineWellFormed(d, 4 + LineIndex(f));
      }
    }
  }

  /** Building the link throws exactly when some field holds an unpaired surrogate. */
  lemma WhatsAppUrlThrowsIff(d: FormData)
    ensures WhatsAppUrl(d).Err? <==> !IsWellFormedForm(d)
  {
    EncodeThrowsIffIllFormed(MessageText(d));
    MessageTextWellFormed(d);
  }

  /**
   * The link is the fixed prefix followed by escaped-form text that decodes to exactly the
   * joined message lines.
   */
  lemma WhatsAppUrlShape(d: FormData)
    ensures WhatsAppUrl(d).Ok? ==>
      var url := WhatsAppUrl(d).value;
      && HasPrefix(url, WhatsAppPrefix)
      && IsEscapedForm(url[|WhatsAppPrefix|..])
      && DecodeURIComponent(url[|WhatsAppPrefix|..]) == Ok(MessageText(d))
  {
    DecodeEncode(MessageText(d));
    EncodeOutputForm(MessageText(d));
    if WhatsAppUrl(d).Ok? {
      var m := GenerateWhatsAppMessage(d).value;
      assert (WhatsAppPrefix + m)[..|WhatsAppPrefix|] == WhatsAppPrefix;
      assert (WhatsAppPrefix + m)[|WhatsAppPrefix|..] == m;
    }
  }

  /** The form can be read back from the link it produced. */
  lemma WhatsAppUrlRoundTrip(d: FormData)
    requires HasNoLineBreak(d) && IsWellFormedForm(d)
    ensures WhatsAppUrl(d).Ok?
    ensures ParseWhatsAppUrl(WhatsAppUrl(d).value) == Some(d)
  {
    WhatsAppUrlThrowsIff(d);
    WhatsAppUrlShape(d);
    ParseMessageRoundTrip(d);
  }

  // ---------------------------------------------------------------------------------
  // Lemmas: submission

  /**
   * Submission is all or nothing: when the browser lets it through, it is blocked exactly when
   * some field fails, and then shows an error for each failing field and for no other.
   */
  lemma SubmitAllOrNothing(d: FormData, dateBadInput: bool)
    ensures Submit(d, dateBadInput).NotSubmitted? <==> !BrowserAccepts(d, dateBadInput)
    ensures Submit(d, dateBadInput).Blocked? <==>
              BrowserAccepts(d, dateBadInput) && exists f :: !Accepts(f, Value(d, f))
    ensures Submit(d, dateBadInput).Blocked? ==>
              forall f :: f in Submit(d, dateBadInput).errors <==> !Accepts(f, Value(d, f))
    ensures Submit(d, dateBadInput).OpenedWindow? ==>
              WhatsAppUrl(d) == Ok(Submit(d, dateBadInput).url)
  {
    ErrorsArePerField(d);
    if exists f :: !Accepts(f, Value(d, f)) {
      var f :| !Accepts(f, Value(d, f));
      assert f in Errors(d);
    }
  }

  /**
   * A valid form whose fields are well formed opens a window exactly when the browser's own
   * checks pass, and the link it opens reads back as that form.
   */
  lemma SubmitOpensLinkOfForm(d: FormData, dateBadInput: bool)
    requires forall f :: Accepts(f, Value(d, f))
    requires HasNoLineBreak(d) && IsWellFormedForm(d)
    ensures Submit(d, dateBadInput).OpenedWindow? <==> BrowserAccepts(d, dateBadInput)
    ensures Submit(d, dateBadInput).OpenedWindow? ==>
              ParseWhatsAppUrl(Submit(d, dateBadInput).url) == Some(d)
  {
    ErrorsEmptyIff(d);
    WhatsAppUrlRoundTrip(d);
    if BrowserAccepts(d, dateBadInput) {
      assert Submit(d, dateBadInput) == OpenedWindow(WhatsAppUrl(d).value);
    }
  }

  /** A valid form that the browser lets through makes onSubmit throw exactly on ill-formed text. */
  lemma SubmitThrowsOnIllFormedText(d: FormData, dateBadInput: bool)
    requires forall f :: Accepts(f, Value(d, f))
    ensures Submit(d, dateBadInput).Threw? <==>
              BrowserAccepts(d, dateBadInput) && !IsWellFormedForm(d)
  {
    SubmitAllOrNothing(d, dateBadInput);
    WhatsAppUrlThrowsIff(d);
  }

  /** A passenger count of "0", "2.5" or any negative number keeps the whole form from being sent. */
  lemma SeatsInputStopsSubmit(d: FormData, dateBadInput: bool)
    ensures d.seats == Str("0") ==> Submit(d, dateBadInput) == NotSubmitted
    ensures d.seats == Str("2.5") ==> Submit(d, dateBadInput) == NotSubmitted
    ensures d.seats != [] && d.seats[0] == NumberInput.Minus ==>
              Submit(d, dateBadInput) == NotSubmitted
  {
    if d.seats == Str("0") {
      NumberInput.DigitsAccepted(d.seats);
    }
    if d.seats == Str("2.5") {
      assert d.seats == [0x32] + [NumberInput.FullStop] + [0x35];
      NumberInput.FractionRejected([0x32], [0x35]);
    }
    if d.seats != [] && d.seats[0] == NumberInput.Minus {
      NumberInput.NegativeRejected(d.seats);
    }
  }

  // ---------------------------------------------------------------------------------
  // Re-validation after a submission

  /**
   * The errors shown after field f changes, once the form has been submitted: react-hook-form
   * re-runs the resolver on the new values and updates the entry of the changed field only.
   */
  function RevalidateField(shown: map<Field, Issue>, d: FormData, f: Field): map<Field, Issue>
  {
    var e := Errors(d);
    if f in e then shown[f := e[f]] else shown - {f}
  }

  /** Re-validating the edited field keeps the shown errors equal to those of the current values. */
  lemma RevalidationKeepsErrorsCurrent(d: FormData, f: Field, v: JsString)
    ensures RevalidateField(Errors(d), WithValue(d, f, v), f) == Errors(WithValue(d, f, v))
  {
    ErrorsIsolated(d, f, v);
    UpdateOneKey(Errors(d), Errors(WithValue(d, f, v)), f);
  }

  /** Two maps that agree away from key f become equal once f's entry is copied across. */
  lemma UpdateOneKey<K, V>(e: map<K, V>, e': map<K, V>, f: K)
    requires e' - {f} == e - {f}
    ensures (if f in e' then e[f := e'[f]] else e - {f}) == e'
  {
    var r := if f in e' then e[f := e'[f]] else e - {f};
    forall g ensures (g in r <==> g in e') && (g in r ==> r[g] == e'[g]) {
      if g != f {
        assert g in e' <==> g in e' - {f};
        assert g in e <==> g in e - {f};
        assert g in e' ==> e'[g] == (e' - {f})[g];
        assert g in e ==> e[g] == (e - {f})[g];
      }
    }
  }

  // ---------------------------------------------------------------------------------
  // The sample inquiry

  function SampleInquiry(): FormData
  {
    FormData(Str("Asha Rao"), Str("9035119555"), Str("Wedding"), LuxuryBusOption,
             Str("45"), Str("2025-12-10"), Str("Bidar"), Str("Hyderabad"))
  }

  /** The sample passes every check. */
  lemma SampleInquiryAccepted()
    ensures Errors(SampleInquiry()) == map[]
  {
    var d := SampleInquiry();
    assert |d.fullName| == 8 && |d.phone| == 10 && |d.tripType| == 7 && |d.vehiclePref| == 10;
    assert |d.seats| == 2 && |d.travelDate| == 10;
    forall f ensures Accepts(f, Value(d, f)) {
    }
    ErrorsEmptyIff(d);
  }

  /** The sample's passenger count "45" is one the browser lets through. */
  lemma SampleSeatsAccepted()
    ensures NumberInput.AcceptsValue(SampleInquiry().seats)
  {
    var v := SampleInquiry().seats;
    assert v == [0x34, 0x35] && v[..1] == [0x34] && v[..1][..0] == [];
    NumberInput.DigitsAccepted(v);
  }

  /** Without a trip type the sample is blocked, with an error on that field alone. */
  lemma SampleWithoutTripTypeBlocked()
    ensures Errors(SampleInquiry().(tripType := []))
            == map[TripType := TooSmall(1, TripTypeMessage)]
    ensures Submit(SampleInquiry().(tripType := []), false).Blocked?
  {
    var d := SampleInquiry();
    var d' := WithValue(d, TripType, []);
    assert d' == d.(tripType := []);
    SampleInquiryAccepted();
    SampleSeatsAccepted();
    ErrorsIsolated(d, TripType, []);
    ErrorsAt(d', TripType);
    var e := Errors(d');
    var none: map<Field, Issue> := map[];
    assert none - {TripType} == none;
    UpdateOneKey(none, e, TripType);
    assert e == map[TripType := TooSmall(1, TripTypeMessage)];
    assert d'.seats == d.seats;
    assert Submit(d', false) == Blocked(e);
  }
}
