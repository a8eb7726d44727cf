/** The formatters of the accommodation details page
    (src/js/pages/accommodation/details/app.js). Each one rewrites some
    properties of a sub-object of the API response in place; here each is a
    function from the input record to the output record.

    The sanitiser `clean` (HTML-entity decoding followed by markdown rendering in
    sanitising mode) belongs to two foreign libraries and is passed in as the
    parameter `clean`, about which nothing is assumed. */
module AccommodationDetails {
  import opened JsValues
  import opened JsStrings
  import opened JsArrays

  /** The eleven yes/no features of a property, in the order the page lists them. */
  datatype Feature =
    | AcceptsPets | HasDisabledAccess | HasSingleRooms | HasSharedRooms
    | HasShowerBathroomFacilities | HasAccessToKitchen | HasFlexibleMealTimes
    | HasLounge | HasLaundryFacilities | ProvidesCleanBedding | AllowsVisitors

  /** Property names of the accommodation sub-objects. Each constructor stands
      for the property whose name `Name` gives; `Other(n)` stands for a property
      `n` the page does not name, so a record encodes a JavaScript object only
      when no key is `Other(n)` with `n` one of the named properties
      (`WellFormed`). */
  datatype Field =
    | Synopsis | Description | AdditionalInfo
    | Street1 | Street2 | Street3 | City | Postcode
    | FeatureFlag(feature: Feature) | AdditionalFeatures | HasIndividualFeatures
    | FoodIsIncluded | ReferralNotes | FeaturesAvailableAtAdditionalCost | AvailabilityOfMeals
    | SupportOffered | SupportInfo | HasOnSiteManager
    | HasContent
    | Other(name: string)
  {
    /** The JavaScript property name. */
    function Name(): string {
      match this
      case Synopsis => "synopsis"
      case Description => "description"
      case AdditionalInfo => "additionalInfo"
      case Street1 => "street1"
      case Street2 => "street2"
      case Street3 => "street3"
      case City => "city"
      case Postcode => "postcode"
      case FeatureFlag(f) => (
        match f
        case AcceptsPets => "acceptsPets"
        case HasDisabledAccess => "hasDisabledAccess"
        case HasSingleRooms => "hasSingleRooms"
        case HasSharedRooms => "hasSharedRooms"
        case HasShowerBathroomFacilities => "hasShowerBathroomFacilities"
        case HasAccessToKitchen => "hasAccessToKitchen"
        case HasFlexibleMealTimes => "hasFlexibleMealTimes"
        case HasLounge => "hasLounge"
        case HasLaundryFacilities => "hasLaundryFacilities"
        case ProvidesCleanBedding => "providesCleanBedding"
        case AllowsVisitors => "allowsVisitors")
      case AdditionalFeatures => "additionalFeatures"
      case HasIndividualFeatures => "hasIndividualFeatures"
      case FoodIsIncluded => "foodIsIncluded"
      case ReferralNotes => "referralNotes"
      case FeaturesAvailableAtAdditionalCost => "featuresAvailableAtAdditionalCost"
      case AvailabilityOfMeals => "availabilityOfMeals"
      case SupportOffered => "supportOffered"
      case SupportInfo => "supportInfo"
      case HasOnSiteManager => "hasOnSiteManager"
      case HasContent => "hasContent"
      case Other(n) => n
    }
  }

  /** A sub-object of the API response: its own properties. */
  type Record = map<Field, Value>

  /** No key spells a named property as `Other`: each JavaScript property has
      exactly one key. */
  ghost predicate WellFormed(r: Record) {
    forall k :: k in r && k.Other? ==> !IsNamedProperty(k.name)
  }

  /** `n` is the name of a property the page names. */
  ghost predicate IsNamedProperty(n: string) {
    exists f: Field :: !f.Other? && f.Name() == n
  }

  /** `fields.forEach((f) => { data[f] = g(data[f]) })` for a list without
      repeats: each listed property is replaced by `g` of its old value (and
      created if it was missing); every other property is left alone. */
  function RewriteFields(data: Record, fields: seq<Field>, g: Value -> Value): (r: Record)
    ensures forall k :: k in r <==> k in data || k in fields
    ensures forall k :: k in fields ==> r[k] == g(Get(data, k))
    ensures forall k :: k in data && k !in fields ==> r[k] == data[k]
  {
    map k | k in data.Keys + (set f | f in fields) :: if k in fields then g(Get(data, k)) else data[k]
  }

  /** `fields.filter((f) => test(data[f]))`: the listed properties whose value
      passes `test`, in list order. */
  function FieldsWith(data: Record, fields: seq<Field>, test: Value -> bool): seq<Field> {
    if fields == [] then []
    else (if test(Get(data, fields[0])) then [fields[0]] else []) + FieldsWith(data, fields[1..], test)
  }

  /** `FieldsWith` is `Array.prototype.filter` with a callback that reads the
      property. */
  lemma {:induction false} FieldsWithIsFilter(data: Record, fields: seq<Field>, test: Value -> bool)
    ensures FieldsWith(data, fields, test) == Filter(fields, f => test(Get(data, f)))
  {
    if fields != [] {
      FieldsWithIsFilter(data, fields[1..], test);
    }
  }

  /** Some listed property passes `test` exactly when the filtered list is
      non-empty. */
  lemma {:induction false} FieldsWithNonEmptyIff(data: Record, fields: seq<Field>, test: Value -> bool)
    ensures |FieldsWith(data, fields, test)| > 0 <==> exists i :: 0 <= i < |fields| && test(Get(data, fields[i]))
  {
    if fields != [] {
      FieldsWithNonEmptyIff(data, fields[1..], test);
      assert forall i :: 1 <= i < |fields| ==> fields[i] == fields[1..][i - 1];
    }
  }

  /** Replacement of a text property by its sanitised rendering. */
  function Cleaned(clean: Value -> string): Value -> Value {
    v => Str(clean(v))
  }

  // ---------------------------------------------------------------------------
  // formatGeneralInfo and formatContactInformation

  /** `formatGeneralInfo`: `synopsis` and `description` become their sanitised
      renderings; nothing else changes. */
  function FormatGeneralInfo(data: Record, clean: Value -> string): (r: Record)
    ensures r.Keys == data.Keys + {Synopsis, Description}
    ensures r[Synopsis] == Str(clean(Get(data, Synopsis)))
    ensures r[Description] == Str(clean(Get(data, Description)))
    ensures forall k :: k in data && k != Synopsis && k != Description ==> r[k] == data[k]
  {
    RewriteFields(data, [Synopsis, Description], Cleaned(clean))
  }

  /** `formatContactInformation`: `additionalInfo` becomes its sanitised
      rendering; nothing else changes. */
  function FormatContactInformation(data: Record, clean: Value -> string): (r: Record)
    ensures r.Keys == data.Keys + {AdditionalInfo}
    ensures r[AdditionalInfo] == Str(clean(Get(data, AdditionalInfo)))
    ensures forall k :: k in data && k != AdditionalInfo ==> r[k] == data[k]
  {
    RewriteFields(data, [AdditionalInfo], Cleaned(clean))
  }

  /** The two text formatters add only named keys, so they keep a record an
      encoding of a JavaScript object. */
  lemma FormattersKeepWellFormed(data: Record, clean: Value -> string)
    requires WellFormed(data)
    ensures WellFormed(FormatGeneralInfo(data, clean))
    ensures WellFormed(FormatContactInformation(data, clean))
  {
  }

  // ---------------------------------------------------------------------------
  // Sub-objects that may be absent

  /** One of the four formatters without an `if (!data)` guard
      (`formatGeneralInfo`, `formatContactInformation`, `formatFeatures`, and
      `formatAddress` through `FormatAddressOf`) applied to a sub-object that
      may be `undefined` or `null` (`None`): the first property read throws. */
  function Unguarded<T>(data: Option<Record>, format: Record -> T): (r: Result<T>)
    ensures r.TypeError? <==> data.None?
    ensures data.Some? ==> r == Success(format(data.value))
  {
    match data
    case None => TypeError("Cannot read property of undefined")
    case Some(d) => Success(format(d))
  }

  /** `formatGeneralInfo` on a sub-object that may be absent. */
  function FormatGeneralInfoOf(data: Option<Record>, clean: Value -> string): (r: Result<Record>)
    ensures r.TypeError? <==> data.None?
    ensures data.Some? ==> r == Success(FormatGeneralInfo(data.value, clean))
  {
    Unguarded(data, d => FormatGeneralInfo(d, clean))
  }

  /** `formatContactInformation` on a sub-object that may be absent. */
  function FormatContactInformationOf(data: Option<Record>, clean: Value -> string): (r: Result<Record>)
    ensures r.TypeError? <==> data.None?
    ensures data.Some? ==> r == Success(FormatContactInformation(data.value, clean))
  {
    Unguarded(data, d => FormatContactInformation(d, clean))
  }

  /** `formatFeatures` on a sub-object that may be absent. */
  function FormatFeaturesOf(features: Option<Record>, clean: Value -> string): (r: Result<Record>)
    ensures r.TypeError? <==> features.None?
    ensures features.Some? ==> r == Success(FormatFeatures(features.value, clean))
  {
    Unguarded(features, d => FormatFeatures(d, clean))
  }

  // ---------------------------------------------------------------------------
  // formatAddress

  const AddressParts: seq<Field> := [Street1, Street2, Street3, City]

  /** `addressObj[p].trim()`: only a string has a `trim` method. */
  function TrimPart(v: Value): Result<string> {
    if v.Str? then Success(Trim(v.s)) else TypeError("addressObj[p].trim is not a function")
  }

  /** `present.map((p) => addressObj[p].trim())`: the first part that is not a
      string throws. */
  function TrimParts(addr: Record, present: seq<Field>): Result<seq<string>> {
    if present == [] then Success([])
    else
      match TrimPart(Get(addr, present[0]))
      case TypeError(m) => TypeError(m)
      case Success(t) =>
        match TrimParts(addr, present[1..])
        case TypeError(m) => TypeError(m)
        case Success(ts) => Success([t] + ts)
  }

  /** `TrimParts` is `Array.prototype.map` with the trimming callback. */
  lemma {:induction false} TrimPartsIsMap(addr: Record, present: seq<Field>)
    ensures TrimParts(addr, present) == MapOrThrow(present, p => TrimPart(Get(addr, p)))
  {
    if present != [] {
      TrimPartsIsMap(addr, present[1..]);
    }
  }

  /** The lines the pipeline `filter(present).map(trim).filter(non-empty)`
      keeps from the parts `fields` of `addr`. */
  function KeptLines(addr: Record, fields: seq<Field>): Result<seq<string>> {
    var present := FieldsWith(addr, fields, Truthy);
    match TrimParts(addr, present)
    case TypeError(m) => TypeError(m)
    case Success(trimmed) => Success(Filter(trimmed, t => |t| > 0))
  }

  /** `formatAddress`: the kept lines joined with ", ", then ". " and the
      postcode. */
  function FormatAddress(addr: Record): (r: Result<string>)
    ensures r.Success? ==> exists line :: r.value == line + ". " + ToJsString(Get(addr, Postcode))
  {
    match KeptLines(addr, AddressParts)
    case TypeError(m) => TypeError(m)
    case Success(lines) =>
      var line := Join(lines, ", ");
      Success(line + ". " + ToJsString(Get(addr, Postcode)))
  }

  /** `formatAddress` on an address that may be absent: reading `street1` of
      `undefined` or `null` throws before any part is looked at. */
  function FormatAddressOf(addressObj: Option<Record>): (r: Result<string>)
    ensures addressObj.None? ==> r.TypeError?
    ensures addressObj.Some? ==> r == FormatAddress(addressObj.value)
  {
    match addressObj
    case None => TypeError("Cannot read property 'street1' of undefined")
    case Some(a) => FormatAddress(a)
  }

  /** A part the page cannot use: present (truthy) but not a string. */
  predicate Unusable(v: Value) {
    Truthy(v) && !v.Str?
  }

  /** What a usable part contributes: its trimmed text, or nothing. */
  function PartText(v: Value): string {
    if v.Str? then Trim(v.s) else ""
  }

  /** Reference reading of the address line, built part by part: a part with
      text is written, after ", " unless it is the first text written. */
  function AddressLine(addr: Record, fields: seq<Field>): string {
    if fields == [] then ""
    else
      var t := PartText(Get(addr, fields[0]));
      var rest := AddressLine(addr, fields[1..]);
      if t == "" then rest else if rest == "" then t else t + ", " + rest
  }

  lemma KeptLinesCons(addr: Record, f: Field, fields: seq<Field>)
    ensures KeptLines(addr, [f] + fields).TypeError?
            <==> Unusable(Get(addr, f)) || KeptLines(addr, fields).TypeError?
    ensures KeptLines(addr, [f] + fields).Success? ==>
            KeptLines(addr, [f] + fields).value
            == (if PartText(Get(addr, f)) != "" then [PartText(Get(addr, f))] else [])
               + KeptLines(addr, fields).value
  {
    var nonEmpty := (t: string) => |t| > 0;
    var present := FieldsWith(addr, fields, Truthy);
    assert ([f] + fields)[1..] == fields;
    var v := Get(addr, f);
    assert FieldsWith(addr, [f] + fields, Truthy) == (if Truthy(v) then [f] else []) + present;
    if Truthy(v) {
      assert ([f] + present)[1..] == present;
      if v.Str? && TrimParts(addr, present).Success? {
        FilterCons(Trim(v.s), TrimParts(addr, present).value, nonEmpty);
      }
    } else {
      assert FieldsWith(addr, [f] + fields, Truthy) == present;
      if v.Str? {
        TrimEmptyIff(v.s);
      }
    }
  }

  /** The pipeline succeeds exactly when no part is unusable. */
  lemma {:induction false} KeptLinesSucceedIff(addr: Record, fields: seq<Field>)
    ensures KeptLines(addr, fields).Success?
            <==> forall i :: 0 <= i < |fields| ==> !Unusable(Get(addr, fields[i]))
  {
    if fields != [] {
      var rest := fields[1..];
      assert fields == [fields[0]] + rest;
      KeptLinesCons(addr, fields[0], rest);
      KeptLinesSucceedIff(addr, rest);
      assert (forall i :: 0 <= i < |fields| ==> !Unusable(Get(addr, fields[i])))
             <==> !Unusable(Get(addr, fields[0])) && forall i :: 0 <= i < |rest| ==> !Unusable(Get(addr, rest[i])) by {
        assert forall i :: 0 <= i < |rest| ==> rest[i] == fields[i + 1];
      }
    }
  }

  /** When it succeeds, the pipeline keeps only non-empty lines and their join
      is the reference address line. */
  lemma {:induction false} KeptLinesJoin(addr: Record, fields: seq<Field>)
    requires KeptLines(addr, fields).Success?
    ensures forall i :: 0 <= i < |KeptLines(addr, fields).value| ==> KeptLines(addr, fields).value[i] != ""
    ensures Join(KeptLines(addr, fields).value, ", ") == AddressLine(addr, fields)
  {
    if fields != [] {
      var f := fields[0];
      assert fields == [f] + fields[1..];
      KeptLinesCons(addr, f, fields[1..]);
      KeptLinesJoin(addr, fields[1..]);
      var ks := KeptLines(addr, fields[1..]).value;
      JoinEmptyIff(ks, ", ");
      var t := PartText(Get(addr, f));
      if t != "" {
        assert KeptLines(addr, fields).value == [t] + ks;
        assert ([t] + ks)[1..] == ks;
      } else {
        assert KeptLines(addr, fields).value == ks;
      }
    }
  }

  /** `formatAddress` throws exactly when one of street1, street2, street3 and
      city is present but not a string. Otherwise its result is the address
      line (the trimmed non-blank parts in that order, separated by ", "), then
      ". ", then the postcode as a template literal prints it. */
  lemma FormatAddressSpec(addr: Record)
    ensures FormatAddress(addr).Success?
            <==> forall i :: 0 <= i < |AddressParts| ==> !Unusable(Get(addr, AddressParts[i]))
    ensures FormatAddress(addr).Success? ==>
            FormatAddress(addr).value
            == AddressLine(addr, AddressParts) + ". " + ToJsString(Get(addr, Postcode))
  {
    KeptLinesSucceedIff(addr, AddressParts);
    if KeptLines(addr, AddressParts).Success? {
      KeptLinesJoin(addr, AddressParts);
    }
  }

  /** The address line is empty exactly when every part is absent, not a
      string, or blank; the formatted address is then ". " and the postcode. */
  lemma {:induction false} AddressLineEmptyIff(addr: Record, fields: seq<Field>)
    ensures AddressLine(addr, fields) == ""
            <==> forall i :: 0 <= i < |fields| ==> PartText(Get(addr, fields[i])) == ""
  {
    if fields != [] {
      AddressLineEmptyIff(addr, fields[1..]);
      assert forall i :: 1 <= i < |fields| ==> fields[i] == fields[1..][i - 1];
    }
  }

  /** An absent address throws; a present one throws exactly when one of its
      parts is unusable, and otherwise gives the address line, ". " and the
      postcode. */
  lemma FormatAddressOfSpec(addressObj: Option<Record>)
    ensures FormatAddressOf(addressObj).TypeError?
            <==> addressObj.None?
                 || exists i :: 0 <= i < |AddressParts| && Unusable(Get(addressObj.value, AddressParts[i]))
    ensures FormatAddressOf(addressObj).Success? ==>
            FormatAddressOf(addressObj).value
            == AddressLine(addressObj.value, AddressParts) + ". " + ToJsString(Get(addressObj.value, Postcode))
  {
    if addressObj.Some? {
      FormatAddressSpec(addressObj.value);
    }
  }

  /** With no usable text in any part the result is ". " and the postcode. */
  lemma FormatAddressNoLines(addr: Record)
    requires forall i :: 0 <= i < |AddressParts| ==> !Unusable(Get(addr, AddressParts[i]))
    requires forall i :: 0 <= i < |AddressParts| ==> PartText(Get(addr, AddressParts[i])) == ""
    ensures FormatAddress(addr) == Success(". " + ToJsString(Get(addr, Postcode)))
  {
    FormatAddressSpec(addr);
    AddressLineEmptyIff(addr, AddressParts);
    assert AddressLine(addr, AddressParts) + ". " == ". ";
  }

  /** Every line written into the address is a trimmed, non-blank part. */
  lemma {:induction false} AddressLineTrimmed(addr: Record, fields: seq<Field>)
    ensures IsTrimmed(AddressLine(addr, fields))
  {
    if fields != [] {
      AddressLineTrimmed(addr, fields[1..]);
      var t := PartText(Get(addr, fields[0]));
      var rest := AddressLine(addr, fields[1..]);
      if t != "" && rest != "" {
        var line := t + ", " + rest;
        assert line[0] == t[0];
        assert line[|line| - 1] == rest[|rest| - 1];
      }
    }
  }

  /** The address of a property with a first street line, a blank second one,
      no third one and a city. */
  function SparseAddress(street: string, city: string, postcode: Value): Record {
    map[Street1 := Str(street), Street2 := Str(""), City := Str(city), Postcode := postcode]
  }

  lemma SparseAddressParts(street: string, city: string, postcode: Value)
    requires street != "" && IsTrimmed(street) && city != "" && IsTrimmed(city)
    ensures var a := SparseAddress(street, city, postcode);
            && PartText(Get(a, Street1)) == street && PartText(Get(a, Street2)) == ""
            && PartText(Get(a, Street3)) == "" && PartText(Get(a, City)) == city
            && forall i :: 0 <= i < |AddressParts| ==> !Unusable(Get(a, AddressParts[i]))
  {
    var a := SparseAddress(street, city, postcode);
    assert Get(a, Street3) == Undefined;
    assert Get(a, Street2) == Str("");
    assert Get(a, Street1) == Str(street);
    assert Get(a, City) == Str(city);
    TrimmedUnchanged(street);
    TrimmedUnchanged("");
    TrimmedUnchanged(city);
  }

  lemma SparseAddressLine(street: string, city: string, postcode: Value)
    requires street != "" && IsTrimmed(street) && city != "" && IsTrimmed(city)
    ensures AddressLine(SparseAddress(street, city, postcode), AddressParts) == street + ", " + city
  {
    var a := SparseAddress(street, city, postcode);
    SparseAddressParts(street, city, postcode);
    assert AddressLine(a, [City]) == city;
    assert [Street3, City][1..] == [City];
    assert AddressLine(a, [Street3, City]) == city;
    assert [Street2, Street3, City][1..] == [Street3, City];
    assert AddressLine(a, [Street2, Street3, City]) == city;
    assert AddressParts[1..] == [Street2, Street3, City];
  }

  /** A blank second street line and a missing third one leave no empty
      segment behind: the first line and the city are joined by a single ", ". */
  lemma BlankPartsSkipped(street: string, city: string, postcode: Value)
    requires street != "" && IsTrimmed(street) && city != "" && IsTrimmed(city)
    ensures FormatAddress(SparseAddress(street, city, postcode))
            == Success(street + ", " + city + ". " + ToJsString(postcode))
  {
    SparseAddressParts(street, city, postcode);
    SparseAddressLine(street, city, postcode);
    FormatAddressSpec(SparseAddress(street, city, postcode));
  }

  // ---------------------------------------------------------------------------
  // formatFeatures

  /** The feature keys in the order `formatFeatures` lists them. */
  const FeatureOrder: seq<Feature> := [
    AcceptsPets, HasDisabledAccess, HasSingleRooms, HasSharedRooms,
    HasShowerBathroomFacilities, HasAccessToKitchen, HasFlexibleMealTimes,
    HasLounge, HasLaundryFacilities, ProvidesCleanBedding, AllowsVisitors]

  const FeatureKeys: seq<Field> :=
    seq(|FeatureOrder|, i requires 0 <= i < |FeatureOrder| => FeatureFlag(FeatureOrder[i]))

  /** The list names every feature. */
  lemma FeatureKeysComplete(f: Feature)
    ensures FeatureFlag(f) in FeatureKeys
  {
    var i := match f
      case AcceptsPets => 0
      case HasDisabledAccess => 1
      case HasSingleRooms => 2
      case HasSharedRooms => 3
      case HasShowerBathroomFacilities => 4
      case HasAccessToKitchen => 5
      case HasFlexibleMealTimes => 6
      case HasLounge => 7
      case HasLaundryFacilities => 8
      case ProvidesCleanBedding => 9
      case AllowsVisitors => 10;
    assert FeatureKeys[i] == FeatureFlag(f);
  }

  /** `v === true`. */
  predicate IsTrue(v: Value) {
    v == Bool(true)
  }

  /** `features[f] === 1`, as a boolean value. */
  function IsOne(v: Value): Value {
    Bool(v == Num(1))
  }

  /** Some feature was the number 1 on input. */
  predicate AnyFeatureOffered(features: Record) {
    exists f :: Get(features, FeatureFlag(f)) == Num(1)
  }

  /** `formatFeatures`: the eleven flags coerced, `additionalFeatures`
      sanitised, then the two presence flags derived from the result. */
  function FormatFeatures(features: Record, clean: Value -> string): (r: Record)
    ensures Get(r, HasIndividualFeatures).Bool? && Get(r, HasContent).Bool?
    ensures Get(r, HasIndividualFeatures) == Bool(true) ==> Get(r, HasContent) == Bool(true)
  {
    var withText := RewriteFields(features, FeatureKeys, IsOne)
                    [AdditionalFeatures := Str(clean(Get(features, AdditionalFeatures)))];
    var hasIndividual := |FieldsWith(withText, FeatureKeys, IsTrue)| > 0;
    withText[HasIndividualFeatures := Bool(hasIndividual)]
            [HasContent := Bool(hasIndividual || |withText[AdditionalFeatures].s| > 0)]
  }

  /** Each feature ends up `true` exactly when it was the number 1 on input, and
      `false` otherwise, including when it was missing. */
  lemma FormatFeaturesFlags(features: Record, clean: Value -> string)
    ensures forall f :: Get(FormatFeatures(features, clean), FeatureFlag(f)) == Bool(Get(features, FeatureFlag(f)) == Num(1))
  {
    forall f ensures FeatureFlag(f) in FeatureKeys {
      FeatureKeysComplete(f);
    }
  }

  /** `additionalFeatures` holds its sanitised rendering; `hasIndividualFeatures`
      is true exactly when some feature was the number 1; `hasContent` is true
      exactly when a feature was offered or that rendering is non-empty. */
  lemma FormatFeaturesPresence(features: Record, clean: Value -> string)
    ensures var r, text := FormatFeatures(features, clean), clean(Get(features, AdditionalFeatures));
            && Get(r, AdditionalFeatures) == Str(text)
            && Get(r, HasIndividualFeatures) == Bool(AnyFeatureOffered(features))
            && Get(r, HasContent) == Bool(AnyFeatureOffered(features) || |text| > 0)
  {
    var withText := RewriteFields(features, FeatureKeys, IsOne)
                    [AdditionalFeatures := Str(clean(Get(features, AdditionalFeatures)))];
    forall f ensures FeatureFlag(f) in FeatureKeys {
      FeatureKeysComplete(f);
    }
    assert forall i :: 0 <= i < |FeatureKeys| ==>
      (Get(withText, FeatureKeys[i]) == Bool(true) <==> Get(features, FeatureKeys[i]) == Num(1));
    FieldsWithNonEmptyIff(withText, FeatureKeys, IsTrue);
  }

  /** The properties `formatFeatures` writes. */
  predicate WrittenByFormatFeatures(k: Field) {
    k.FeatureFlag? || k == AdditionalFeatures || k == HasIndividualFeatures || k == HasContent
  }

  /** `formatFeatures` adds exactly the properties it writes. */
  lemma FormatFeaturesKeys(features: Record, clean: Value -> string)
    ensures forall k :: k in FormatFeatures(features, clean) <==> k in features || WrittenByFormatFeatures(k)
  {
    forall f ensures FeatureFlag(f) in FeatureKeys {
      FeatureKeysComplete(f);
    }
    var withText := RewriteFields(features, FeatureKeys, IsOne);
    assert forall k :: k in withText <==> k in features || k.FeatureFlag?;
  }

  /** `formatFeatures` leaves every property it does not write as it was. */
  lemma FormatFeaturesFrame(features: Record, clean: Value -> string)
    ensures forall k :: k in features && !WrittenByFormatFeatures(k) ==> Get(FormatFeatures(features, clean), k) == features[k]
  {
    var withText := RewriteFields(features, FeatureKeys, IsOne);
    assert forall k :: k in features && !k.FeatureFlag? ==> withText[k] == features[k];
  }

  /** Formatting is not idempotent: a second pass sees booleans, not the number
      1, and switches every feature off. */
  lemma FormatFeaturesTwiceClearsFlags(features: Record, clean: Value -> string)
    ensures var twice := FormatFeatures(FormatFeatures(features, clean), clean);
            && (forall f :: Get(twice, FeatureFlag(f)) == Bool(false))
            && Get(twice, HasIndividualFeatures) == Bool(false)
  {
    var once := FormatFeatures(features, clean);
    FormatFeaturesFlags(features, clean);
    FormatFeaturesFlags(once, clean);
    FormatFeaturesPresence(once, clean);
  }

  // ---------------------------------------------------------------------------
  // formatPricingAndReqs

  /** The text properties whose non-emptiness counts as content. */
  const TextContentFields: seq<Field> := [FeaturesAvailableAtAdditionalCost, ReferralNotes, AvailabilityOfMeals]

  /** `v.length > 0` for the strings the sanitiser produces. */
  predicate NonEmptyText(v: Value) {
    v.Str? && |v.s| > 0
  }

  /** `formatPricingAndReqs`: nothing for an absent input; otherwise
      `foodIsIncluded` coerced, the three text properties sanitised one after
      the other, and `hasContent` derived from the result. */
  function FormatPricingAndReqs(data: Option<Record>, clean: Value -> string): (r: Option<Record>)
    ensures r.None? <==> data.None?
  {
    match data
    case None => None
    case Some(d) =>
      var texts := d[FoodIsIncluded := IsOne(Get(d, FoodIsIncluded))]
                    [ReferralNotes := Str(clean(Get(d, ReferralNotes)))]
                    [FeaturesAvailableAtAdditionalCost := Str(clean(Get(d, FeaturesAvailableAtAdditionalCost)))]
                    [AvailabilityOfMeals := Str(clean(Get(d, AvailabilityOfMeals)))];
      var nonEmpty := FieldsWith(texts, TextContentFields, NonEmptyText);
      Some(texts[HasContent := Bool(texts[FoodIsIncluded] == Bool(true) || |nonEmpty| > 0)])
  }

  /** Some text property is non-empty once sanitised. */
  predicate HasPricingText(d: Record, clean: Value -> string) {
    exists f :: f in TextContentFields && |clean(Get(d, f))| > 0
  }

  /** The properties `formatPricingAndReqs` writes. */
  predicate WrittenByFormatPricingAndReqs(k: Field) {
    || k == FoodIsIncluded || k == HasContent
    || k == ReferralNotes || k == FeaturesAvailableAtAdditionalCost || k == AvailabilityOfMeals
  }

  /** For a present input, `formatPricingAndReqs` adds exactly the properties
      it writes and leaves every other property as it was. */
  lemma FormatPricingAndReqsFrame(d: Record, clean: Value -> string)
    ensures var o := FormatPricingAndReqs(Some(d), clean).value;
      && (forall k :: k in o <==> k in d || WrittenByFormatPricingAndReqs(k))
      && forall k :: k in d && !WrittenByFormatPricingAndReqs(k) ==> Get(o, k) == d[k]
  {
  }

  /** `foodIsIncluded` is true exactly when it was the number 1, and each text
      property holds its sanitised rendering. */
  lemma FormatPricingAndReqsFields(d: Record, clean: Value -> string)
    ensures var o := FormatPricingAndReqs(Some(d), clean).value;
      && Get(o, FoodIsIncluded) == Bool(Get(d, FoodIsIncluded) == Num(1))
      && Get(o, ReferralNotes) == Str(clean(Get(d, ReferralNotes)))
      && Get(o, FeaturesAvailableAtAdditionalCost) == Str(clean(Get(d, FeaturesAvailableAtAdditionalCost)))
      && Get(o, AvailabilityOfMeals) == Str(clean(Get(d, AvailabilityOfMeals)))
  {
  }

  /** `hasContent` is true exactly when food is included or some sanitised
      text is non-empty. */
  lemma FormatPricingAndReqsContent(d: Record, clean: Value -> string)
    ensures Get(FormatPricingAndReqs(Some(d), clean).value, HasContent)
            == Bool(Get(d, FoodIsIncluded) == Num(1) || HasPricingText(d, clean))
  {
    var texts := d[FoodIsIncluded := IsOne(Get(d, FoodIsIncluded))]
                  [ReferralNotes := Str(clean(Get(d, ReferralNotes)))]
                  [FeaturesAvailableAtAdditionalCost := Str(clean(Get(d, FeaturesAvailableAtAdditionalCost)))]
                  [AvailabilityOfMeals := Str(clean(Get(d, AvailabilityOfMeals)))];
    assert forall i :: 0 <= i < |TextContentFields| ==>
      (NonEmptyText(Get(texts, TextContentFields[i])) <==> |clean(Get(d, TextContentFields[i]))| > 0);
    FieldsWithNonEmptyIff(texts, TextContentFields, NonEmptyText);
    assert HasPricingText(d, clean) <==>
      exists i :: 0 <= i < |TextContentFields| && |clean(Get(d, TextContentFields[i]))| > 0;
  }

  // ---------------------------------------------------------------------------
  // formatSupportProvided

  datatype SupportType = SupportType(key: string, name: string)

  /** The support codes the API sends and their display names. */
  const SupportTypes: seq<SupportType> := [
    SupportType("alcohol", "Alcohol"),
    SupportType("domestic violence", "Domestic Violence"),
    SupportType("mental health", "Mental Health"),
    SupportType("physical health", "Physical Health"),
    SupportType("substances", "Drug Dependency")]

  /** `code` is the code of some table row and `display` is that row's name. */
  predicate Labels(code: Value, display: Value) {
    exists j :: 0 <= j < |SupportTypes| && code == Str(SupportTypes[j].key)
                && display == Str(SupportTypes[j].name)
  }

  predicate IsSupportCode(code: Value) {
    exists j :: 0 <= j < |SupportTypes| && code == Str(SupportTypes[j].key)
  }

  /** `table.find((kv) => kv.key === code)`: the first row with that code. */
  function RowWithKey(table: seq<SupportType>, code: Value): (r: Option<SupportType>)
    ensures r.None? <==> forall i :: 0 <= i < |table| ==> Str(table[i].key) != code
    ensures r.Some? ==> exists i :: 0 <= i < |table| && table[i] == r.value && Str(table[i].key) == code
  {
    if table == [] then None
    else if Str(table[0].key) == code then Some(table[0])
    else
      var r := RowWithKey(table[1..], code);
      assert forall i :: 1 <= i < |table| ==> table[i] == table[1..][i - 1];
      r
  }

  /** `table.find((kv) => kv.name === display)`: the first row with that name. */
  function RowWithName(table: seq<SupportType>, display: Value): (r: Option<SupportType>)
    ensures r.None? <==> forall i :: 0 <= i < |table| ==> Str(table[i].name) != display
    ensures r.Some? ==> exists i :: 0 <= i < |table| && table[i] == r.value && Str(table[i].name) == display
  {
    if table == [] then None
    else if Str(table[0].name) == display then Some(table[0])
    else
      var r := RowWithName(table[1..], display);
      assert forall i :: 1 <= i < |table| ==> table[i] == table[1..][i - 1];
      r
  }

  /** `supportTypes.find(kv => kv.key === s).name`: the display name of a known
      code; reading `.name` of the `undefined` an unknown code finds throws. */
  function SupportName(code: Value): (r: Result<Value>)
    ensures r.Success? <==> IsSupportCode(code)
    ensures r.Success? ==> Labels(code, r.value)
  {
    match RowWithKey(SupportTypes, code)
    case None => TypeError("Cannot read property 'name' of undefined")
    case Some(kv) => Success(Str(kv.name))
  }

  /** No two rows of the table share a code or a display name. */
  lemma SupportTypesDistinct()
    ensures forall i, j :: 0 <= i < j < |SupportTypes| ==>
              SupportTypes[i].key != SupportTypes[j].key && SupportTypes[i].name != SupportTypes[j].name
  {
    assert SupportTypes[1].name[1] != SupportTypes[4].name[1];
  }

  /** Reverse lookup of the table: the code whose display name is `display`. */
  function SupportCode(display: Value): (r: Option<Value>)
    ensures r.Some? ==> Labels(r.value, display)
  {
    match RowWithName(SupportTypes, display)
    case None => None
    case Some(kv) => Some(Str(kv.key))
  }

  /** The display name of a known code leads back to that code, so distinct
      codes get distinct names and the display list determines the codes. */
  lemma SupportNameRoundTrip(code: Value)
    requires IsSupportCode(code)
    ensures SupportName(code).Success?
    ensures SupportCode(SupportName(code).value) == Some(code)
  {
    SupportTypesDistinct();
  }

  /** `formatSupportProvided`: nothing for an absent input; otherwise the codes
      mapped to names (throwing on a non-array or an unknown code),
      `supportInfo` sanitised and `hasContent` derived. */
  function FormatSupportProvided(data: Option<Record>, clean: Value -> string): (r: Result<Option<Record>>)
    ensures data.None? ==> r == Success(None)
    ensures r.Success? && data.Some? ==> r.value.Some?
  {
    match data
    case None => Success(None)
    case Some(d) =>
      match Get(d, SupportOffered)
      case Arr(codes) =>
        (match MapOrThrow(codes, SupportName)
         case TypeError(m) => TypeError(m)
         case Success(names) =>
           var info := clean(Get(d, SupportInfo));
           var hasContent := if |names| > 0 || |info| > 0 then Bool(true) else Get(d, HasOnSiteManager);
           Success(Some(d[SupportOffered := Arr(names)][SupportInfo := Str(info)][HasContent := hasContent])))
      case _ => TypeError("data.supportOffered.map is not a function")
  }

  /** All codes are known: `supportOffered` is an array of table codes. */
  predicate KnownCodes(offered: Value) {
    offered.Arr? && forall i :: 0 <= i < |offered.items| ==> IsSupportCode(offered.items[i])
  }

  /** A present input is formatted exactly when `supportOffered` is an array of
      known codes; then `supportOffered` becomes the list of their display
      names, same length, same order, and `supportInfo` its sanitised
      rendering. */
  lemma FormatSupportProvidedLabels(d: Record, clean: Value -> string)
    ensures FormatSupportProvided(Some(d), clean).Success? <==> KnownCodes(Get(d, SupportOffered))
    ensures FormatSupportProvided(Some(d), clean).Success? ==>
      var offered, o := Get(d, SupportOffered), FormatSupportProvided(Some(d), clean).value.value;
      && o[SupportOffered].Arr?
      && |o[SupportOffered].items| == |offered.items|
      && (forall i :: 0 <= i < |offered.items| ==> Labels(offered.items[i], o[SupportOffered].items[i]))
      && o[SupportInfo] == Str(clean(Get(d, SupportInfo)))
  {
  }

  /** `hasContent` is `true` when there is a name or some sanitised text, and
      otherwise is the `hasOnSiteManager` value itself, as `||` yields it; so it
      is truthy exactly when one of the three is. No other property changes. */
  lemma FormatSupportProvidedContent(d: Record, clean: Value -> string)
    requires FormatSupportProvided(Some(d), clean).Success?
    ensures var offered, o := Get(d, SupportOffered), FormatSupportProvided(Some(d), clean).value.value;
      && (o[HasContent] == Bool(true) || o[HasContent] == Get(d, HasOnSiteManager))
      && (Truthy(o[HasContent]) <==> |offered.items| > 0 || |clean(Get(d, SupportInfo))| > 0
                                     || Truthy(Get(d, HasOnSiteManager)))
      && (forall k :: k in o <==> k in d || k in {SupportOffered, SupportInfo, HasContent})
      && forall k :: k in d && k !in {SupportOffered, SupportInfo, HasContent} ==> o[k] == d[k]
  {
    FormatSupportProvidedLabels(d, clean);
  }

  // ---------------------------------------------------------------------------
  // formatResidentCriteria

  /** `formatResidentCriteria`: nothing for an absent input; otherwise
      `hasContent` is added, true exactly when some property of the input is the
      boolean `true`. Every other property is unchanged. */
  function FormatResidentCriteria(data: Option<Record>): (r: Option<Record>)
    ensures r.None? <==> data.None?
    ensures data.Some? ==>
      var d, o := data.value, r.value;
      && o.Keys == d.Keys + {HasContent}
      && o[HasContent] == Bool(exists k :: k in d && d[k] == Bool(true))
      && forall k :: k in d && k != HasContent ==> o[k] == d[k]
  {
    match data
    case None => None
    case Some(d) =>
      var trueKeys := set k | k in d && d[k] == Bool(true);
      assert |trueKeys| > 0 <==> exists k :: k in d && d[k] == Bool(true) by {
        if exists k :: k in d && d[k] == Bool(true) {
          var k :| k in d && d[k] == Bool(true);
          assert k in trueKeys;
        }
      }
      Some(d[HasContent := Bool(|trueKeys| > 0)])
  }

  // ---------------------------------------------------------------------------
  // Formatting twice

  /** A second pass of `formatPricingAndReqs` sees the boolean it wrote, not
      the number 1, and turns `foodIsIncluded` off. */
  lemma FormatPricingAndReqsTwiceClearsFood(d: Record, clean: Value -> string)
    ensures var once := FormatPricingAndReqs(Some(d), clean).value;
            Get(FormatPricingAndReqs(Some(once), clean).value, FoodIsIncluded) == Bool(false)
  {
    var once := FormatPricingAndReqs(Some(d), clean).value;
    FormatPricingAndReqsFields(d, clean);
    FormatPricingAndReqsFields(once, clean);
  }

  /** No display name of the support table is also one of its codes. */
  lemma NoNameIsCode(display: Value, code: Value)
    requires Labels(code, display)
    ensures !IsSupportCode(display)
  {
    var j :| 0 <= j < |SupportTypes| && display == Str(SupportTypes[j].name);
    forall i | 0 <= i < |SupportTypes|
      ensures Str(SupportTypes[i].key) != display
    {
      assert SupportTypes[i].key[0] != SupportTypes[j].name[0];
    }
  }

  /** A second pass of `formatSupportProvided` over a non-empty list looks up
      the display names it wrote as codes, finds none, and throws. */
  lemma FormatSupportProvidedTwiceThrows(d: Record, clean: Value -> string)
    requires FormatSupportProvided(Some(d), clean).Success?
    requires |Get(d, SupportOffered).items| > 0
    ensures FormatSupportProvided(FormatSupportProvided(Some(d), clean).value, clean).TypeError?
  {
    FormatSupportProvidedLabels(d, clean);
    var once := FormatSupportProvided(Some(d), clean).value.value;
    var names := once[SupportOffered].items;
    NoNameIsCode(names[0], Get(d, SupportOffered).items[0]);
    assert Get(once, SupportOffered) == once[SupportOffered];
    assert !KnownCodes(Get(once, SupportOffered));
    FormatSupportProvidedLabels(once, clean);
  }

  // ---------------------------------------------------------------------------
  // Well-formedness

  /** `formatFeatures` adds only named properties. */
  lemma FormatFeaturesKeepsWellFormed(features: Record, clean: Value -> string)
    requires WellFormed(features)
    ensures WellFormed(FormatFeatures(features, clean))
  {
    FormatFeaturesKeys(features, clean);
  }

  /** `formatPricingAndReqs` adds only named properties. */
  lemma FormatPricingAndReqsKeepsWellFormed(d: Record, clean: Value -> string)
    requires WellFormed(d)
    ensures WellFormed(FormatPricingAndReqs(Some(d), clean).value)
  {
    FormatPricingAndReqsFrame(d, clean);
  }

  /** `formatSupportProvided` adds only named properties. */
  lemma FormatSupportProvidedKeepsWellFormed(d: Record, clean: Value -> string)
    requires WellFormed(d)
    requires FormatSupportProvided(Some(d), clean).Success?
    ensures WellFormed(FormatSupportProvided(Some(d), clean).value.value)
  {
    FormatSupportProvidedContent(d, clean);
  }

  /** `formatResidentCriteria` adds only `hasContent`. */
  lemma FormatResidentCriteriaKeepsWellFormed(d: Record)
    requires WellFormed(d)
    ensures WellFormed(FormatResidentCriteria(Some(d)).value)
  {
  }
}
