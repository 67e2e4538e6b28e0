/** The multipart body of a turf submission and the middleware that rebuilds it
    (backend/middleware/parseFormData.js).

    multer hands the middleware a flat body: one entry per field name, a string when the
    name was sent once and an array of strings when it was sent several times. The
    middleware turns the bracket- or dot-keyed location and operating-hours fields into
    objects and normalises the amenity and rule lists. */
module FormData {
  import opened Js
  import opened Models

  /** The location object the middleware builds: each string field holds whatever value it
      picked from the body, and a coordinate is None when Number() of it is NaN. */
  datatype FormLocation = FormLocation(address: Field, city: Field, state: Field, pincode: Field,
                                       lat: Option<real>, lng: Option<real>)

  /** One body entry: a string, an array of strings, or one of the two objects the
      middleware builds (the location, and the operating hours with the values picked for
      opening and closing). */
  datatype Field = Text(text: string) | Texts(texts: seq<string>) | Place(place: FormLocation)
                 | Clock(open: Field, close: Field)

  type Body = map<string, Field>

  /** `body[key]` is truthy: present and not the empty string (any array or object is
      truthy, the empty array included). */
  predicate Present(body: Body, key: string)
  {
    key in body && body[key] != Text("")
  }

  /** `body[k1] || body[k2] || d`: the first truthy value, whatever its shape. */
  function Pick(body: Body, k1: string, k2: string, d: string): (r: Field)
    ensures Present(body, k1) ==> r == body[k1]
    ensures !Present(body, k1) && Present(body, k2) ==> r == body[k2]
    ensures !Present(body, k1) && !Present(body, k2) ==> r == Text(d)
    ensures r == Text("") ==> d == ""
  {
    if Present(body, k1) then body[k1]
    else if Present(body, k2) then body[k2]
    else Text(d)
  }

  /** `Number(v)`: a string is parsed; an array is first joined with commas, so the empty
      array is 0 and a one-element array is its element (NumberOfList); an object reads
      as "[object Object]", which is NaN. */
  function NumberOf(v: Field): Option<real>
  {
    match v
    case Text(s) => ToNumber(s)
    case Texts(ss) => ToNumber(Join(ss, ','))
    case _ => None
  }

  /** Number([]) is 0 and Number([s]) is Number(s). */
  lemma NumberOfList(s: string)
    ensures NumberOf(Texts([])) == Some(0.0)
    ensures NumberOf(Texts([s])) == NumberOf(Text(s))
  {
  }

  /** `Number(body[k1] || body[k2] || 0)`: Number(0) is 0, and so is Number(""). */
  function Coordinate(body: Body, k1: string, k2: string): (r: Option<real>)
    ensures Present(body, k1) ==> r == NumberOf(body[k1])
    ensures !Present(body, k1) && Present(body, k2) ==> r == NumberOf(body[k2])
    ensures !Present(body, k1) && !Present(body, k2) ==> r == Some(0.0)
  {
    NumberOf(Pick(body, k1, k2, ""))
  }

  predicate StartsWith(s: string, p: string)
  {
    |p| <= |s| && s[..|p|] == p
  }

  /** Line 7: some field name contains '[' or '.'. */
  predicate HasNestedFields(body: Body)
  {
    exists k :: k in body && ('[' in k || '.' in k)
  }

  /** Line 11: the location is rebuilt when its bracket address or its dot city is set. */
  predicate LocationTrigger(body: Body)
  {
    Present(body, "location[address]") || Present(body, "location.city")
  }

  /** Line 32: the hours are rebuilt when either spelling of the opening time is set. */
  predicate HoursTrigger(body: Body)
  {
    Present(body, "operatingHours[open]") || Present(body, "operatingHours.open")
  }

  predicate LocationKey(k: string) { StartsWith(k, "location[") || StartsWith(k, "location.") }
  predicate HoursKey(k: string) { StartsWith(k, "operatingHours[") || StartsWith(k, "operatingHours.") }

  /** The location object of lines 12-21: each field takes its bracket spelling, then its
      dot spelling, then "" (0 for the coordinates). */
  function LocationOf(body: Body): FormLocation
  {
    FormLocation(Pick(body, "location[address]", "location.address", ""),
                 Pick(body, "location[city]", "location.city", ""),
                 Pick(body, "location[state]", "location.state", ""),
                 Pick(body, "location[pincode]", "location.pincode", ""),
                 Coordinate(body, "location[coordinates][lat]", "location.coordinates.lat"),
                 Coordinate(body, "location[coordinates][lng]", "location.coordinates.lng"))
  }

  /** Lines 12-28: set `location`, then delete every `location[`/`location.` key. */
  function RebuildLocation(body: Body): (r: Body)
    ensures "location" in r && r["location"] == Place(LocationOf(body))
    ensures forall k :: k in r ==> !LocationKey(k)
    ensures forall k :: k in r && k != "location" ==> k in body
  {
    var kept := map k | k in body && !LocationKey(k) :: body[k];
    kept["location" := Place(LocationOf(body))]
  }

  /** The hours object of lines 33-36: each time takes its bracket spelling, then its dot
      spelling, then 06:00 or 22:00. */
  function HoursOf(body: Body): Field
  {
    Clock(Pick(body, "operatingHours[open]", "operatingHours.open", "06:00"),
          Pick(body, "operatingHours[close]", "operatingHours.close", "22:00"))
  }

  /** Lines 33-43: set `operatingHours`, then delete every `operatingHours[`/`operatingHours.`
      key. */
  function RebuildHours(body: Body): (r: Body)
    ensures "operatingHours" in r && r["operatingHours"] == HoursOf(body)
    ensures forall k :: k in r ==> !HoursKey(k)
    ensures forall k :: k in r && k != "operatingHours" ==> k in body
  {
    var kept := map k | k in body && !HoursKey(k) :: body[k];
    kept["operatingHours" := HoursOf(body)]
  }

  /** `body` and `r` agree on the field `k`. */
  predicate SameAt(r: Body, body: Body, k: string)
  {
    (k in r <==> k in body) && (k in r ==> r[k] == body[k])
  }

  /** Rebuilding the location keeps every other field. */
  lemma RebuildLocationFrame(body: Body, k: string)
    requires !LocationKey(k) && k != "location"
    ensures SameAt(RebuildLocation(body), body, k)
  {
  }

  /** Rebuilding the hours keeps every other field. */
  lemma RebuildHoursFrame(body: Body, k: string)
    requires !HoursKey(k) && k != "operatingHours"
    ensures SameAt(RebuildHours(body), body, k)
  {
  }

  /** The filter's test `a => a && a.trim()`: the empty string is falsy, and so is a string
      whose trimmed form is empty. */
  predicate NonBlank(s: string)
  {
    !IsBlank(s)
  }

  /** `list.filter(a => a && a.trim())`: the entries that are not blank, in order. */
  function KeepNonBlank(ss: seq<string>): (r: seq<string>)
    ensures |r| <= |ss|
    ensures forall i :: 0 <= i < |r| ==> NonBlank(r[i])
  {
    var kept := Filter(ss, NonBlank);
    FilterMembers(ss, NonBlank);
    assert forall i :: 0 <= i < |kept| ==> kept[i] in kept && NonBlank(kept[i]);
    kept
  }

  /** The filter distributes over concatenation: the kept entries keep their relative
      order. */
  lemma KeepNonBlankAppend(a: seq<string>, b: seq<string>)
    ensures KeepNonBlank(a + b) == KeepNonBlank(a) + KeepNonBlank(b)
  {
    FilterConcat(a, b, NonBlank);
  }

  /** The filter drops exactly the blank entries: a string is kept iff it occurs and is not
      blank. */
  lemma KeepNonBlankMembers(ss: seq<string>, x: string)
    ensures x in KeepNonBlank(ss) <==> x in ss && !IsBlank(x)
  {
    FilterMembers(ss, NonBlank);
  }

  /** A list without blank entries passes the filter unchanged. */
  lemma {:induction false} KeepNonBlankFixed(ss: seq<string>)
    requires forall i :: 0 <= i < |ss| ==> !IsBlank(ss[i])
    ensures KeepNonBlank(ss) == ss
  {
    if ss != [] {
      KeepNonBlankFixed(ss[1..]);
      assert NonBlank(ss[0]);
    }
  }

  /** Lines 48-62 for one list field: a falsy field is left alone; a single string becomes a
      one-element list; the list loses its blank entries. An object there has no `trim`, so
      the filter throws (None). */
  function NormalizeList(body: Body, key: string): (r: Option<Body>)
    ensures r.None? <==> key in body && (body[key].Place? || body[key].Clock?)
    ensures r.Some? ==> r.value.Keys == body.Keys
  {
    if !Present(body, key) then Some(body)
    else
      match body[key]
      case Text(s) => Some(body[key := Texts(KeepNonBlank([s]))])
      case Texts(ss) => Some(body[key := Texts(KeepNonBlank(ss))])
      case Place(_) => None
      case Clock(_, _) => None
  }

  /** What normalising does to its own field: a falsy field stays, a single string becomes
      the one-element list (empty when the string is blank), a list loses its blank
      entries. */
  lemma NormalizeEffect(body: Body, key: string)
    requires NormalizeList(body, key).Some?
    ensures var r := NormalizeList(body, key).value;
      && (!Present(body, key) ==> r == body)
      && (Present(body, key) && body[key].Text? ==>
            r[key] == Texts(if IsBlank(body[key].text) then [] else [body[key].text]))
      && (Present(body, key) && body[key].Texts? ==> r[key] == Texts(KeepNonBlank(body[key].texts)))
  {
  }

  /** Normalising a list keeps every other field. */
  lemma NormalizeFrame(body: Body, key: string, k: string)
    requires NormalizeList(body, key).Some? && k != key
    ensures SameAt(NormalizeList(body, key).value, body, k)
  {
  }

  /** The location step of the middleware. */
  function LocationStep(body: Body): Body
  {
    if HasNestedFields(body) && LocationTrigger(body) then RebuildLocation(body) else body
  }

  /** The hours step of the middleware. */
  function HoursStep(body: Body): Body
  {
    if HasNestedFields(body) && HoursTrigger(body) then RebuildHours(body) else body
  }

  /** The whole middleware; None when the list filter throws. */
  function ParseFormData(body: Body): Option<Body>
  {
    match NormalizeList(HoursStep(LocationStep(body)), "amenities")
    case None => None
    case Some(b) => NormalizeList(b, "rules")
  }

  // ---------------------------------------------------------------------------
  // Field names

  /** Which prefix each field name the middleware reads carries. */
  lemma FieldNames()
    ensures LocationKey("location[address]") && LocationKey("location.city")
    ensures HoursKey("operatingHours[open]") && HoursKey("operatingHours.open")
    ensures HoursKey("operatingHours[close]") && HoursKey("operatingHours.close")
    ensures !LocationKey("location") && !HoursKey("location")
    ensures !LocationKey("operatingHours") && !HoursKey("operatingHours")
    ensures !LocationKey("amenities") && !HoursKey("amenities")
    ensures !LocationKey("rules") && !HoursKey("rules")
    ensures "amenities" != "rules" && "amenities" != "location" && "rules" != "location"
    ensures "amenities" != "operatingHours" && "rules" != "operatingHours" && "location" != "operatingHours"
  {
    assert "operatingHours"[..9][0] == 'o';
  }

  /** No name carries both prefixes. */
  lemma PrefixesExclusive(k: string)
    ensures !(LocationKey(k) && HoursKey(k))
  {
    if |k| > 0 && k[0] == 'l' && |k| >= 15 {
      assert k[..15][0] == 'l';
    }
    if |k| > 0 && k[0] == 'o' && |k| >= 9 {
      assert k[..9][0] == 'o';
    }
  }

  /** Both triggers name a key with '[' or '.', so the check of line 7 never decides
      anything on its own. */
  lemma TriggersImplyNested(body: Body)
    ensures LocationTrigger(body) ==> HasNestedFields(body)
    ensures HoursTrigger(body) ==> HasNestedFields(body)
  {
    if Present(body, "location[address]") {
      assert '[' in "location[address]";
    } else if Present(body, "location.city") {
      assert '.' in "location.city";
    }
    if Present(body, "operatingHours[open]") {
      assert '[' in "operatingHours[open]";
    } else if Present(body, "operatingHours.open") {
      assert '.' in "operatingHours.open";
    }
  }

  /** The two rebuild steps keep any field that is neither a location nor an hours field. */
  lemma StepsFrame(body: Body, k: string)
    requires !LocationKey(k) && !HoursKey(k) && k != "location" && k != "operatingHours"
    ensures SameAt(HoursStep(LocationStep(body)), body, k)
  {
    RebuildLocationFrame(body, k);
    RebuildHoursFrame(LocationStep(body), k);
  }

  /** The location step keeps the hours fields, so the hours step sees the request's. */
  lemma LocationStepKeepsHours(body: Body)
    ensures HoursTrigger(LocationStep(body)) == HoursTrigger(body)
    ensures HoursOf(LocationStep(body)) == HoursOf(body)
  {
    FieldNames();
    PrefixesExclusive("operatingHours[open]");
    PrefixesExclusive("operatingHours.open");
    PrefixesExclusive("operatingHours[close]");
    PrefixesExclusive("operatingHours.close");
    RebuildLocationFrame(body, "operatingHours[open]");
    RebuildLocationFrame(body, "operatingHours.open");
    RebuildLocationFrame(body, "operatingHours[close]");
    RebuildLocationFrame(body, "operatingHours.close");
  }

  /** After both rebuild steps, a location field has been removed if the location was
      rebuilt and is untouched otherwise; likewise the `location` field itself. */
  lemma StepsOnLocation(body: Body, k: string)
    requires LocationKey(k) || k == "location"
    ensures var b2 := HoursStep(LocationStep(body));
      && (LocationTrigger(body) && LocationKey(k) ==> k !in b2)
      && (LocationTrigger(body) && k == "location" ==> k in b2 && b2[k] == Place(LocationOf(body)))
      && (!LocationTrigger(body) ==> SameAt(b2, body, k))
  {
    TriggersImplyNested(body);
    FieldNames();
    PrefixesExclusive(k);
    RebuildHoursFrame(LocationStep(body), k);
  }

  /** After both rebuild steps, an hours field has been removed if the hours were rebuilt
      and is untouched otherwise; the `operatingHours` field holds the rebuilt hours. */
  lemma StepsOnHours(body: Body, k: string)
    requires HoursKey(k) || k == "operatingHours"
    ensures var b2 := HoursStep(LocationStep(body));
      && (HoursTrigger(body) && HoursKey(k) ==> k !in b2)
      && (HoursTrigger(body) && k == "operatingHours" ==> k in b2 && b2[k] == HoursOf(body))
      && (!HoursTrigger(body) ==> SameAt(b2, body, k))
  {
    LocationStepKeepsHours(body);
    TriggersImplyNested(LocationStep(body));
    FieldNames();
    PrefixesExclusive(k);
    RebuildLocationFrame(body, k);
  }

  // ---------------------------------------------------------------------------
  // What the middleware promises

  /** When the middleware does not throw, the location is rebuilt iff its trigger holds, and
      then no `location[`/`location.` field is left. */
  lemma ParseLocation(body: Body)
    requires ParseFormData(body).Some?
    requires LocationTrigger(body)
    ensures var r := ParseFormData(body).value;
      && "location" in r && r["location"] == Place(LocationOf(body))
      && forall k :: k in r ==> !LocationKey(k)
  {
    var b2 := HoursStep(LocationStep(body));
    var r := ParseFormData(body).value;
    FieldNames();
    StepsOnLocation(body, "location");
    PostParse(body, "location");
    forall k | k in r
      ensures !LocationKey(k)
    {
      if LocationKey(k) {
        StepsOnLocation(body, k);
        PostParse(body, k);
      }
    }
  }

  /** The middleware's last two steps only touch the two list fields, whose key set they
      keep. */
  lemma PostParse(body: Body, k: string)
    requires ParseFormData(body).Some?
    ensures var b2 := HoursStep(LocationStep(body));
      && NormalizeList(b2, "amenities").Some?
      && ParseFormData(body).value.Keys == b2.Keys
      && (k != "amenities" && k != "rules" ==> SameAt(ParseFormData(body).value, b2, k))
  {
    var b2 := HoursStep(LocationStep(body));
    if k != "amenities" && k != "rules" {
      NormalizeFrame(b2, "amenities", k);
      NormalizeFrame(NormalizeList(b2, "amenities").value, "rules", k);
    }
  }

  /** Without its trigger the location fields, and the `location` field, pass through
      unchanged. */
  lemma ParseLocationUntouched(body: Body, k: string)
    requires ParseFormData(body).Some?
    requires !LocationTrigger(body) && (LocationKey(k) || k == "location")
    ensures SameAt(ParseFormData(body).value, body, k)
  {
    FieldNames();
    StepsOnLocation(body, k);
    PostParse(body, k);
    if k != "location" {
      assert k != "amenities" && k != "rules" by {
        assert k != "amenities" by { assert !LocationKey("amenities"); }
        assert k != "rules" by { assert !LocationKey("rules"); }
      }
    }
  }

  /** When the middleware does not throw and the hours trigger holds, `operatingHours` holds
      the rebuilt hours (06:00 and 22:00 for a missing time) and no
      `operatingHours[`/`operatingHours.` field is left. */
  lemma ParseHours(body: Body)
    requires ParseFormData(body).Some?
    requires HoursTrigger(body)
    ensures var r := ParseFormData(body).value;
      && "operatingHours" in r && r["operatingHours"] == HoursOf(body)
      && forall k :: k in r ==> !HoursKey(k)
  {
    var r := ParseFormData(body).value;
    FieldNames();
    StepsOnHours(body, "operatingHours");
    PostParse(body, "operatingHours");
    forall k | k in r
      ensures !HoursKey(k)
    {
      if HoursKey(k) {
        StepsOnHours(body, k);
        PostParse(body, k);
      }
    }
  }

  /** The list fields reach the normalisation as the request sent them. */
  lemma ListReachesNormalize(body: Body, key: string)
    requires key == "amenities" || key == "rules"
    ensures SameAt(HoursStep(LocationStep(body)), body, key)
  {
    FieldNames();
    StepsFrame(body, key);
  }

  /** A single non-empty amenity string becomes a one-element list (empty if it is
      blank). */
  lemma SingleAmenity(body: Body, s: string)
    requires "amenities" in body && body["amenities"] == Text(s) && s != ""
    requires ParseFormData(body).Some?
    ensures "amenities" in ParseFormData(body).value
    ensures ParseFormData(body).value["amenities"] == Texts(if IsBlank(s) then [] else [s])
  {
    var b2 := HoursStep(LocationStep(body));
    ListReachesNormalize(body, "amenities");
    PostParse(body, "amenities");
    NormalizeEffect(b2, "amenities");
    FieldNames();
    NormalizeFrame(NormalizeList(b2, "amenities").value, "rules", "amenities");
  }

  /** A single non-empty rule string becomes a one-element list (empty if it is blank). */
  lemma SingleRule(body: Body, s: string)
    requires "rules" in body && body["rules"] == Text(s) && s != ""
    requires ParseFormData(body).Some?
    ensures "rules" in ParseFormData(body).value
    ensures ParseFormData(body).value["rules"] == Texts(if IsBlank(s) then [] else [s])
  {
    var b2 := HoursStep(LocationStep(body));
    ListReachesNormalize(body, "rules");
    PostParse(body, "rules");
    FieldNames();
    NormalizeFrame(b2, "amenities", "rules");
    NormalizeEffect(NormalizeList(b2, "amenities").value, "rules");
  }

  /** Amenities sent as a list come out as that list without its blank entries, in order. */
  lemma AmenityList(body: Body, ss: seq<string>)
    requires "amenities" in body && body["amenities"] == Texts(ss)
    requires ParseFormData(body).Some?
    ensures "amenities" in ParseFormData(body).value
    ensures ParseFormData(body).value["amenities"] == Texts(KeepNonBlank(ss))
  {
    var b2 := HoursStep(LocationStep(body));
    ListReachesNormalize(body, "amenities");
    PostParse(body, "amenities");
    NormalizeEffect(b2, "amenities");
    FieldNames();
    NormalizeFrame(NormalizeList(b2, "amenities").value, "rules", "amenities");
  }

  /** Rules sent as a list come out as that list without its blank entries, in order. */
  lemma RuleList(body: Body, ss: seq<string>)
    requires "rules" in body && body["rules"] == Texts(ss)
    requires ParseFormData(body).Some?
    ensures "rules" in ParseFormData(body).value
    ensures ParseFormData(body).value["rules"] == Texts(KeepNonBlank(ss))
  {
    var b2 := HoursStep(LocationStep(body));
    ListReachesNormalize(body, "rules");
    PostParse(body, "rules");
    FieldNames();
    NormalizeFrame(b2, "amenities", "rules");
    NormalizeEffect(NormalizeList(b2, "amenities").value, "rules");
  }

  // ---------------------------------------------------------------------------
  // Idempotence

  /** What a body looks like after the middleware: the triggers are off and each list field
      is falsy or a list without blank entries. */
  predicate Settled(body: Body)
  {
    && !LocationTrigger(body) && !HoursTrigger(body)
    && ListSettled(body, "amenities") && ListSettled(body, "rules")
  }

  predicate ListSettled(body: Body, key: string)
  {
    !Present(body, key)
    || (body[key].Texts? && forall i :: 0 <= i < |body[key].texts| ==> !IsBlank(body[key].texts[i]))
  }

  /** After the middleware a trigger field is falsy: removed by its rebuild, or falsy from
      the start since the trigger did not fire. */
  lemma TriggerFieldCleared(body: Body, k: string)
    requires ParseFormData(body).Some?
    requires k == "location[address]" || k == "location.city"
             || k == "operatingHours[open]" || k == "operatingHours.open"
    ensures !Present(ParseFormData(body).value, k)
  {
    var r := ParseFormData(body).value;
    var b2 := HoursStep(LocationStep(body));
    FieldNames();
    PostParse(body, k);
    if k == "location[address]" || k == "location.city" {
      StepsOnLocation(body, k);
    } else {
      StepsOnHours(body, k);
    }
  }

  /** The middleware leaves every body it accepts settled. */
  lemma ParseSettles(body: Body)
    requires ParseFormData(body).Some?
    ensures Settled(ParseFormData(body).value)
  {
    var r := ParseFormData(body).value;
    var b2 := HoursStep(LocationStep(body));
    var b3 := NormalizeList(b2, "amenities").value;
    TriggerFieldCleared(body, "location[address]");
    TriggerFieldCleared(body, "location.city");
    TriggerFieldCleared(body, "operatingHours[open]");
    TriggerFieldCleared(body, "operatingHours.open");
    NormalizeSettles(b2, "amenities");
    FieldNames();
    NormalizeFrame(b3, "rules", "amenities");
    NormalizeSettles(b3, "rules");
  }

  /** Normalising a list field settles it. */
  lemma NormalizeSettles(body: Body, key: string)
    requires NormalizeList(body, key).Some?
    ensures ListSettled(NormalizeList(body, key).value, key)
  {
    NormalizeEffect(body, key);
  }

  /** A settled body passes through the middleware unchanged. */
  lemma SettledFixed(body: Body)
    requires Settled(body)
    ensures ParseFormData(body) == Some(body)
  {
    assert LocationStep(body) == body;
    assert HoursStep(body) == body;
    NormalizeSettled(body, "amenities");
    NormalizeSettled(body, "rules");
  }

  lemma NormalizeSettled(body: Body, key: string)
    requires ListSettled(body, key)
    ensures NormalizeList(body, key) == Some(body)
  {
    if Present(body, key) {
      KeepNonBlankFixed(body[key].texts);
      assert body[key := Texts(body[key].texts)] == body;
    }
  }

  /** Running the middleware twice gives the same body as running it once. */
  lemma ParseIdempotent(body: Body)
    requires ParseFormData(body).Some?
    ensures ParseFormData(ParseFormData(body).value) == ParseFormData(body)
  {
    ParseSettles(body);
    SettledFixed(ParseFormData(body).value);
  }
}
