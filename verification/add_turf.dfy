/** The owner's "Add New Turf" form (frontend/src/pages/AddTurf.jsx): the editor state, the
    amenity and rule list editing, and the multipart encoding it submits, followed through
    multer's grouping of repeated field names and the parseFormData middleware. */
module AddTurf {
  import opened Js
  import opened Models
  import opened FormData

  /** The form's fields, all as the strings the inputs hold. */
  datatype TurfForm = TurfForm(
    name: string, description: string, sportType: string,
    address: string, city: string, state: string, pincode: string, lat: string, lng: string,
    pricePerHour: string, amenities: seq<string>, rules: seq<string>, open: string, close: string)

  /** Lines 10-31: the empty form, football selected, open 06:00 to 22:00. */
  const InitialForm := TurfForm("", "", "football", "", "", "", "", "", "", "", [], [], "06:00", "22:00")

  /** The form and the two text inputs for the next amenity and the next rule. */
  datatype Editor = Editor(form: TurfForm, amenityInput: string, ruleInput: string)

  const InitialEditor := Editor(InitialForm, "", "")

  // ---------------------------------------------------------------------------
  // List editing

  /** The list shape both lists keep: every entry trimmed and not blank. */
  predicate Clean(xs: seq<string>)
  {
    forall x | x in xs :: !IsBlank(x) && Trim(x) == x
  }

  /** `if (input.trim()) { list = [...list, input.trim()]; input = '' }`. */
  function AddItem(list: seq<string>, input: string): (r: (seq<string>, string))
    ensures !IsBlank(input) ==> r == (list + [Trim(input)], "")
    ensures IsBlank(input) ==> r == (list, input)
  {
    if Trim(input) != "" then (list + [Trim(input)], "") else (list, input)
  }

  /** `list.filter((_, i) => i !== index)`. */
  function WithoutIndex<T>(list: seq<T>, index: int): (r: seq<T>)
    decreases |list|
  {
    if list == [] then []
    else (if index == 0 then [] else [list[0]]) + WithoutIndex(list[1..], index - 1)
  }

  /** Removing index i drops exactly element i and keeps the others in order; an index
      outside the list removes nothing. */
  lemma {:induction false} WithoutIndexIsSplice<T>(list: seq<T>, index: int)
    ensures 0 <= index < |list| ==> WithoutIndex(list, index) == list[..index] + list[index + 1..]
    ensures !(0 <= index < |list|) ==> WithoutIndex(list, index) == list
    decreases |list|
  {
    if list != [] {
      WithoutIndexIsSplice(list[1..], index - 1);
      if index == 0 {
        assert list[1..] == list[..0] + list[1..];
      } else if 0 < index < |list| {
        assert list[..index] == [list[0]] + list[1..][..index - 1];
        assert list[index + 1..] == list[1..][index..];
      } else {
        assert list == [list[0]] + list[1..];
      }
    }
  }

  /** Adding the trimmed input keeps a list clean. */
  lemma AddKeepsClean(list: seq<string>, input: string)
    requires Clean(list)
    ensures Clean(AddItem(list, input).0)
  {
    if !IsBlank(input) {
      var t := Trim(input);
      TrimIdempotent(input);
      assert !IsBlank(t) && Trim(t) == t;
      var l := list + [t];
      assert AddItem(list, input).0 == l;
      forall x | x in l ensures !IsBlank(x) && Trim(x) == x {
        if x != t {
          assert x in list;
        }
      }
    }
  }

  /** Removing an entry keeps a list clean. */
  lemma RemoveKeepsClean(list: seq<string>, index: int)
    requires Clean(list)
    ensures Clean(WithoutIndex(list, index))
  {
    WithoutIndexIsSplice(list, index);
    if 0 <= index < |list| {
      forall x | x in list[..index] + list[index + 1..] ensures x in list {
        if x in list[..index] {
          var i :| 0 <= i < index && list[..index][i] == x;
          assert list[i] == x;
        } else {
          var i :| 0 <= i < |list| - index - 1 && list[index + 1..][i] == x;
          assert list[index + 1 + i] == x;
        }
      }
    }
  }

  /** Lines 91-99. */
  function AddAmenity(e: Editor): (r: Editor)
    ensures !IsBlank(e.amenityInput) ==>
      r == e.(form := e.form.(amenities := e.form.amenities + [Trim(e.amenityInput)]), amenityInput := "")
    ensures IsBlank(e.amenityInput) ==> r == e
  {
    var (list, input) := AddItem(e.form.amenities, e.amenityInput);
    e.(form := e.form.(amenities := list), amenityInput := input)
  }

  /** Lines 101-106. */
  function RemoveAmenity(e: Editor, index: int): (r: Editor)
    ensures r == e.(form := e.form.(amenities := r.form.amenities))
    ensures 0 <= index < |e.form.amenities| ==>
      r.form.amenities == e.form.amenities[..index] + e.form.amenities[index + 1..]
    ensures !(0 <= index < |e.form.amenities|) ==> r == e
  {
    WithoutIndexIsSplice(e.form.amenities, index);
    e.(form := e.form.(amenities := WithoutIndex(e.form.amenities, index)))
  }

  /** Lines 108-116: the same step as AddAmenity, on the rules. */
  function AddRule(e: Editor): (r: Editor)
    ensures !IsBlank(e.ruleInput) ==>
      r == e.(form := e.form.(rules := e.form.rules + [Trim(e.ruleInput)]), ruleInput := "")
    ensures IsBlank(e.ruleInput) ==> r == e
  {
    var (list, input) := AddItem(e.form.rules, e.ruleInput);
    e.(form := e.form.(rules := list), ruleInput := input)
  }

  /** Lines 118-123: the same step as RemoveAmenity, on the rules. */
  function RemoveRule(e: Editor, index: int): (r: Editor)
    ensures r == e.(form := e.form.(rules := r.form.rules))
    ensures 0 <= index < |e.form.rules| ==> r.form.rules == e.form.rules[..index] + e.form.rules[index + 1..]
    ensures !(0 <= index < |e.form.rules|) ==> r == e
  {
    WithoutIndexIsSplice(e.form.rules, index);
    e.(form := e.form.(rules := WithoutIndex(e.form.rules, index)))
  }

  /** Both lists of an editor are clean. */
  predicate EditorInv(e: Editor)
  {
    Clean(e.form.amenities) && Clean(e.form.rules)
  }

  /** The form starts clean and every list edit keeps it clean. */
  lemma EditorInvPreserved(e: Editor, index: int)
    ensures EditorInv(InitialEditor)
    ensures EditorInv(e) ==> EditorInv(AddAmenity(e)) && EditorInv(RemoveAmenity(e, index))
    ensures EditorInv(e) ==> EditorInv(AddRule(e)) && EditorInv(RemoveRule(e, index))
  {
    if EditorInv(e) {
      AddKeepsClean(e.form.amenities, e.amenityInput);
      RemoveKeepsClean(e.form.amenities, index);
      AddKeepsClean(e.form.rules, e.ruleInput);
      RemoveKeepsClean(e.form.rules, index);
    }
  }

  /** Adding then removing the last entry gives back the list. */
  lemma AddThenRemove(e: Editor)
    requires !IsBlank(e.amenityInput)
    ensures RemoveAmenity(AddAmenity(e), |e.form.amenities|).form.amenities == e.form.amenities
  {
    var l := e.form.amenities + [Trim(e.amenityInput)];
    assert l[..|e.form.amenities|] == e.form.amenities;
  }

  // ---------------------------------------------------------------------------
  // The multipart encoding and multer

  datatype Entry = Entry(name: string, value: string)

  /** `value || '0'`. */
  function OrZero(s: string): (r: string)
    ensures r != ""
  {
    if s == "" then "0" else s
  }

  /** Lines 44-59: the names of the single-valued fields, in the order they are appended. */
  const FixedNames: seq<string> :=
    ["name", "description", "sportType", "pricePerHour",
     "location[address]", "location[city]", "location[state]", "location[pincode]",
     "location[coordinates][lat]", "location[coordinates][lng]",
     "operatingHours[open]", "operatingHours[close]"]

  /** The values appended under those names; blank coordinates are sent as '0'. */
  function FixedValues(f: TurfForm): (r: seq<string>)
    ensures |r| == |FixedNames|
  {
    [f.name, f.description, f.sportType, f.pricePerHour,
     f.address, f.city, f.state, f.pincode, OrZero(f.lat), OrZero(f.lng),
     f.open, f.close]
  }

  function Fixed(f: TurfForm): (r: seq<Entry>)
    ensures |r| == |FixedNames| && forall i :: 0 <= i < |r| ==> r[i] == Entry(FixedNames[i], FixedValues(f)[i])
  {
    seq(|FixedNames|, i requires 0 <= i < |FixedNames| => Entry(FixedNames[i], FixedValues(f)[i]))
  }

  /** The single-valued names are pairwise distinct. */
  lemma FixedNamesDistinct(a: int, b: int)
    requires 0 <= a < b < |FixedNames|
    ensures FixedNames[a] != FixedNames[b]
  {
  }

  /** Lines 62-69: one entry per list element, in list order. */
  function Each(name: string, xs: seq<string>): (r: seq<Entry>)
    ensures |r| == |xs| && forall i :: 0 <= i < |xs| ==> r[i] == Entry(name, xs[i])
  {
    seq(|xs|, i requires 0 <= i < |xs| => Entry(name, xs[i]))
  }

  /** The body handleSubmit sends (the image files are left to the upload middleware). */
  function Encode(f: TurfForm): seq<Entry>
  {
    Fixed(f) + Each("amenities", f.amenities) + Each("rules", f.rules)
  }

  /** The values sent under one name, in order. */
  function ValuesOf(entries: seq<Entry>, name: string): (r: seq<string>)
  {
    if entries == [] then []
    else (if entries[0].name == name then [entries[0].value] else []) + ValuesOf(entries[1..], name)
  }

  /** multer: a name sent once is a string, a name sent several times an array. */
  function Group(values: seq<string>): Field
  {
    if |values| == 1 then Text(values[0]) else Texts(values)
  }

  /** The body multer builds from the entries: one field per name that was sent. */
  function Multer(entries: seq<Entry>): (body: Body)
    ensures forall n :: n in body <==> exists i :: 0 <= i < |entries| && entries[i].name == n
  {
    map n | n in (set i | 0 <= i < |entries| :: entries[i].name) :: Group(ValuesOf(entries, n))
  }

  lemma {:induction false} ValuesOfAppend(a: seq<Entry>, b: seq<Entry>, name: string)
    ensures ValuesOf(a + b, name) == ValuesOf(a, name) + ValuesOf(b, name)
  {
    if a == [] {
      assert a + b == b;
    } else {
      assert (a + b)[0] == a[0] && (a + b)[1..] == a[1..] + b;
      ValuesOfAppend(a[1..], b, name);
    }
  }

  /** The values of a name no entry carries: none. */
  lemma {:induction false} ValuesOfAbsent(entries: seq<Entry>, name: string)
    requires forall i :: 0 <= i < |entries| ==> entries[i].name != name
    ensures ValuesOf(entries, name) == []
  {
    if entries != [] {
      ValuesOfAbsent(entries[1..], name);
    }
  }

  /** The values of a name only entry i carries: its value. */
  lemma {:induction false} ValuesOfUnique(entries: seq<Entry>, name: string, i: nat)
    requires i < |entries| && entries[i].name == name
    requires forall j :: 0 <= j < |entries| && j != i ==> entries[j].name != name
    ensures ValuesOf(entries, name) == [entries[i].value]
  {
    if i == 0 {
      ValuesOfAbsent(entries[1..], name);
    } else {
      ValuesOfUnique(entries[1..], name, i - 1);
    }
  }

  /** The values of a list's name in its own entries: the list. */
  lemma {:induction false} ValuesOfEach(name: string, xs: seq<string>)
    ensures ValuesOf(Each(name, xs), name) == xs
  {
    if xs != [] {
      assert Each(name, xs)[1..] == Each(name, xs[1..]);
      ValuesOfEach(name, xs[1..]);
      assert xs == [xs[0]] + xs[1..];
    }
  }

  /** The dot spellings the middleware also reads (`location.city`, `operatingHours.open`):
      a '.' right after `location` or right after `operatingHours`. */
  predicate DotSpelling(k: string)
  {
    (|k| > 8 && k[8] == '.') || (|k| > 14 && k[14] == '.')
  }

  /** No single-valued name is a dot spelling or the rebuilt `location`. */
  lemma FixedNameShape(i: nat)
    requires i < |FixedNames|
    ensures !DotSpelling(FixedNames[i]) && FixedNames[i] != "location"
  {
  }

  /** Every name the form sends is a bracket name or a list name. */
  lemma EncodedName(f: TurfForm, i: int)
    requires 0 <= i < |Encode(f)|
    ensures !DotSpelling(Encode(f)[i].name) && Encode(f)[i].name != "location"
  {
    var e := Encode(f);
    var n := |Fixed(f)|;
    if i < n {
      assert e[i] == Fixed(f)[i];
      FixedNameShape(i);
    } else if i < n + |f.amenities| {
      assert e[i] == Each("amenities", f.amenities)[i - n];
    } else {
      assert e[i] == Each("rules", f.rules)[i - n - |f.amenities|];
    }
  }

  /** A dot spelling, or `location` itself, is not part of the multer body. */
  lemma UnsentAbsent(f: TurfForm, k: string)
    requires DotSpelling(k) || k == "location"
    ensures k !in Multer(Encode(f))
  {
    forall i | 0 <= i < |Encode(f)| ensures Encode(f)[i].name != k {
      EncodedName(f, i);
    }
  }

  /** A single-valued field reaches the server as the one string appended under its name. */
  lemma FixedValue(f: TurfForm, i: nat)
    requires i < |FixedNames|
    ensures var body := Multer(Encode(f));
      FixedNames[i] in body && body[FixedNames[i]] == Text(FixedValues(f)[i])
  {
    var e := Encode(f);
    var name := FixedNames[i];
    assert e[i] == Fixed(f)[i];
    forall j | 0 <= j < |e| && j != i ensures e[j].name != name {
      if j < |Fixed(f)| {
        assert e[j] == Fixed(f)[j];
        if j < i { FixedNamesDistinct(j, i); } else { FixedNamesDistinct(i, j); }
      } else if j < |Fixed(f)| + |f.amenities| {
        assert e[j] == Each("amenities", f.amenities)[j - |Fixed(f)|];
      } else {
        assert e[j] == Each("rules", f.rules)[j - |Fixed(f)| - |f.amenities|];
      }
    }
    ValuesOfUnique(e, name, i);
  }

  /** The dot spellings of the location fields, and `location` itself, are not sent. */
  lemma LocationDotsUnsent(f: TurfForm)
    ensures var body := Multer(Encode(f));
      && "location.address" !in body && "location.city" !in body && "location.state" !in body
      && "location.pincode" !in body && "location.coordinates.lat" !in body
      && "location.coordinates.lng" !in body && "location" !in body
  {
    UnsentAbsent(f, "location.address");
    UnsentAbsent(f, "location.city");
    UnsentAbsent(f, "location.state");
    UnsentAbsent(f, "location.pincode");
    UnsentAbsent(f, "location.coordinates.lat");
    UnsentAbsent(f, "location.coordinates.lng");
    UnsentAbsent(f, "location");
  }

  /** The location fields are sent under their bracket names. */
  lemma LocationSent(f: TurfForm)
    ensures var body := Multer(Encode(f));
      && "location[address]" in body && body["location[address]"] == Text(f.address)
      && "location[city]" in body && body["location[city]"] == Text(f.city)
      && "location[state]" in body && body["location[state]"] == Text(f.state)
      && "location[pincode]" in body && body["location[pincode]"] == Text(f.pincode)
      && "location[coordinates][lat]" in body && body["location[coordinates][lat]"] == Text(OrZero(f.lat))
      && "location[coordinates][lng]" in body && body["location[coordinates][lng]"] == Text(OrZero(f.lng))
  {
    FixedValue(f, 4);
    FixedValue(f, 5);
    FixedValue(f, 6);
    FixedValue(f, 7);
    FixedValue(f, 8);
    FixedValue(f, 9);
  }

  /** The opening hours are sent under their bracket names only. */
  lemma HoursSent(f: TurfForm)
    ensures var body := Multer(Encode(f));
      && "operatingHours.open" !in body && "operatingHours.close" !in body
      && "operatingHours[open]" in body && body["operatingHours[open]"] == Text(f.open)
      && "operatingHours[close]" in body && body["operatingHours[close]"] == Text(f.close)
  {
    UnsentAbsent(f, "operatingHours.open");
    UnsentAbsent(f, "operatingHours.close");
    FixedValue(f, 10);
    FixedValue(f, 11);
  }

  /** The values of a list field: the list, in order. */
  lemma ListValues(f: TurfForm, name: string)
    requires name == "amenities" || name == "rules"
    ensures ValuesOf(Encode(f), name) == if name == "amenities" then f.amenities else f.rules
  {
    var fixed := Fixed(f);
    ValuesOfAppend(fixed + Each("amenities", f.amenities), Each("rules", f.rules), name);
    ValuesOfAppend(fixed, Each("amenities", f.amenities), name);
    forall i | 0 <= i < |fixed| ensures fixed[i].name != name {
    }
    ValuesOfAbsent(fixed, name);
    ValuesOfEach(name, if name == "amenities" then f.amenities else f.rules);
    if name == "amenities" {
      ValuesOfAbsent(Each("rules", f.rules), name);
    } else {
      ValuesOfAbsent(Each("amenities", f.amenities), name);
    }
  }

  /** A list field reaches the server as nothing when the list is empty, as a string when it
      has one entry, and as the whole list otherwise. */
  lemma ListField(f: TurfForm, name: string)
    requires name == "amenities" || name == "rules"
    ensures var xs := if name == "amenities" then f.amenities else f.rules;
      var body := Multer(Encode(f));
      && (xs == [] ==> name !in body)
      && (xs != [] ==> name in body && body[name] == Group(xs))
  {
    var xs := if name == "amenities" then f.amenities else f.rules;
    ListValues(f, name);
    var e := Encode(f);
    if xs == [] {
      if name in Multer(e) {
        var i :| 0 <= i < |e| && e[i].name == name;
        ValuesOfNonEmpty(e, name, i);
      }
    } else {
      var i := |Fixed(f)| + (if name == "amenities" then 0 else |f.amenities|);
      if name == "amenities" {
        assert e[i] == Each("amenities", f.amenities)[0];
      } else {
        assert e[i] == Each("rules", f.rules)[0];
      }
    }
  }

  lemma {:induction false} ValuesOfNonEmpty(entries: seq<Entry>, name: string, i: nat)
    requires i < |entries| && entries[i].name == name
    ensures ValuesOf(entries, name) != []
  {
    if i > 0 {
      ValuesOfNonEmpty(entries[1..], name, i - 1);
    }
  }

  // ---------------------------------------------------------------------------
  // The round trip

  /** What the location fields decode to when the address is filled in. */
  function SentLocation(f: TurfForm): FormLocation
  {
    FormLocation(Text(f.address), Text(f.city), Text(f.state), Text(f.pincode),
                 ToNumber(OrZero(f.lat)), ToNumber(OrZero(f.lng)))
  }

  /** `body[k1] || body[k2] || d` when k1 was sent as v and k2 was not sent. */
  lemma PickSent(body: Body, k1: string, k2: string, v: string, d: string)
    requires k1 in body && body[k1] == Text(v) && k2 !in body
    ensures Pick(body, k1, k2, d) == Text(if v != "" then v else d)
  {
  }

  /** The location fields of the encoding, read back by the middleware. */
  lemma LocationDecodes(f: TurfForm)
    ensures var body := Multer(Encode(f));
      && (Present(body, "location[address]") <==> f.address != "")
      && LocationOf(body) == SentLocation(f)
  {
    var body := Multer(Encode(f));
    LocationDotsUnsent(f);
    LocationSent(f);
    PickSent(body, "location[address]", "location.address", f.address, "");
    PickSent(body, "location[city]", "location.city", f.city, "");
    PickSent(body, "location[state]", "location.state", f.state, "");
    PickSent(body, "location[pincode]", "location.pincode", f.pincode, "");
    PickSent(body, "location[coordinates][lat]", "location.coordinates.lat", OrZero(f.lat), "");
    PickSent(body, "location[coordinates][lng]", "location.coordinates.lng", OrZero(f.lng), "");
  }

  /** The hours fields of the encoding, read back by the middleware. */
  lemma HoursDecode(f: TurfForm)
    ensures var body := Multer(Encode(f));
      && (Present(body, "operatingHours[open]") <==> f.open != "")
      && HoursOf(body) == Clock(Text(if f.open == "" then "06:00" else f.open),
                                Text(if f.close == "" then "22:00" else f.close))
  {
    HoursSent(f);
  }

  /** The encoded body never makes the middleware throw: its lists are strings. */
  lemma EncodingParses(f: TurfForm)
    ensures ParseFormData(Multer(Encode(f))).Some?
  {
    var body := Multer(Encode(f));
    ListField(f, "amenities");
    ListField(f, "rules");
    ListReachesNormalize(body, "amenities");
    ListReachesNormalize(body, "rules");
    var b2 := HoursStep(LocationStep(body));
    FieldNames();
    NormalizeFrame(b2, "amenities", "rules");
  }

  /** Submitting the form and decoding it with the middleware gives back the location
      strings, the operating hours and the amenity and rule lists as entered, provided the
      address and the opening time are filled in. */
  lemma SubmitRoundTrip(f: TurfForm)
    requires f.address != "" && f.open != ""
    requires Clean(f.amenities) && Clean(f.rules)
    ensures ParseFormData(Multer(Encode(f))).Some?
    ensures var r := ParseFormData(Multer(Encode(f))).value;
      && "location" in r && r["location"] == Place(SentLocation(f))
      && "operatingHours" in r
      && r["operatingHours"] == Clock(Text(f.open), Text(if f.close == "" then "22:00" else f.close))
      && (f.amenities == [] <==> "amenities" !in r)
      && (f.amenities != [] ==> r["amenities"] == Texts(f.amenities))
      && (f.rules == [] <==> "rules" !in r)
      && (f.rules != [] ==> r["rules"] == Texts(f.rules))
  {
    var body := Multer(Encode(f));
    EncodingParses(f);
    LocationDecodes(f);
    HoursDecode(f);
    ParseLocation(body);
    ParseHours(body);
    ListDecodes(f, "amenities");
    ListDecodes(f, "rules");
  }

  /** A list field after the middleware: absent when empty, the list itself otherwise. */
  lemma ListDecodes(f: TurfForm, name: string)
    requires name == "amenities" || name == "rules"
    requires Clean(f.amenities) && Clean(f.rules)
    requires ParseFormData(Multer(Encode(f))).Some?
    ensures var xs := if name == "amenities" then f.amenities else f.rules;
      var r := ParseFormData(Multer(Encode(f))).value;
      && (xs == [] <==> name !in r)
      && (xs != [] ==> r[name] == Texts(xs))
  {
    var xs := if name == "amenities" then f.amenities else f.rules;
    var body := Multer(Encode(f));
    ListField(f, name);
    KeepNonBlankFixed(xs);
    if xs == [] {
      var b2 := HoursStep(LocationStep(body));
      ListReachesNormalize(body, name);
      PostParse(body, name);
    } else if |xs| == 1 {
      assert body[name] == Text(xs[0]);
      if name == "amenities" {
        SingleAmenity(body, xs[0]);
      } else {
        SingleRule(body, xs[0]);
      }
      assert [xs[0]] == xs;
    } else if name == "amenities" {
      AmenityList(body, xs);
    } else {
      RuleList(body, xs);
    }
  }

  /** A form whose address is empty does not trigger the location rebuild, so the request
      reaches the controller without a `location` field. */
  lemma BlankAddressDropsLocation(f: TurfForm)
    requires f.address == ""
    ensures ParseFormData(Multer(Encode(f))).Some?
    ensures "location" !in ParseFormData(Multer(Encode(f))).value
  {
    var body := Multer(Encode(f));
    LocationDotsUnsent(f);
    LocationSent(f);
    assert !LocationTrigger(body);
    EncodingParses(f);
    ParseLocationUntouched(body, "location");
  }
}
