/**
 The two name searches of the globe page and the zoom request each one makes.

 Country search runs on every keystroke of the country field: the raw input
 is lower-cased (not trimmed) and the first feature whose lower-cased name
 contains it is zoomed to. Location search runs on the search button: the
 input is trimmed and lower-cased, a blank input is rejected, and the first
 location whose lower-cased name equals it is zoomed to. The alert pop-ups
 and the zoom side effect are returned as values instead.
 */
module Search {
  import opened JsString
  import opened FirstMatch
  import opened Globe

  /** A feature of the country collection: its `properties.name`, `lat` and `lon`. */
  datatype Feature = Feature(name: string, lat: real, lon: real)

  /** An entry of the location list. */
  datatype Location = Location(name: string, lat: real, lon: real)

  /** What a search asks of the page: nothing (rejected or no hit) or a zoom to a camera target. */
  datatype Outcome = Rejected | NotFound | Found(target: Vec3)

  // ----- Country search -----

  /** The lower-cased feature name contains the (already lower-cased) term. */
  predicate CountryMatches(f: Feature, term: string) {
    Includes(ToLowerCase(f.name), term)
  }

  function CountryPredicate(term: string): Feature -> bool {
    f => CountryMatches(f, term)
  }

  /** The country-search input handler. */
  function SearchCountry(features: seq<Feature>, input: string, project: Projection): (r: Outcome)
    ensures !r.Rejected?
    ensures r.NotFound? <==>
      forall j :: 0 <= j < |features| ==> !CountryMatches(features[j], ToLowerCase(input))
    ensures r.Found? ==>
      exists i :: IsFirst(features, CountryPredicate(ToLowerCase(input)), i)
        && r.target == Aim(project, features[i].lat, features[i].lon)
  {
    var term := ToLowerCase(input);
    match Find(features, CountryPredicate(term))
    case None =>
      assert forall j :: 0 <= j < |features| ==> !CountryPredicate(term)(features[j]);
      NotFound
    case Some(i) => Found(Aim(project, features[i].lat, features[i].lon))
  }

  /** Country search returns the target of the earliest matching feature, whichever it is. */
  lemma CountryFindsEarliest(features: seq<Feature>, input: string, project: Projection, i: int)
    requires 0 <= i < |features| && CountryMatches(features[i], ToLowerCase(input))
    requires forall j :: 0 <= j < i ==> !CountryMatches(features[j], ToLowerCase(input))
    ensures SearchCountry(features, input, project)
      == Found(Aim(project, features[i].lat, features[i].lon))
  {
    FindReturnsTheFirst(features, CountryPredicate(ToLowerCase(input)), i);
  }

  /** Country search ignores the case of the term: re-cased terms give the same outcome. */
  lemma CountryIgnoresCase(features: seq<Feature>, a: string, b: string, project: Projection)
    requires EqualIgnoringCase(a, b)
    ensures SearchCountry(features, a, project) == SearchCountry(features, b, project)
  {
    LowerCaseEqualIff(a, b);
  }

  /** Country search also ignores the case of the stored names. */
  lemma CountryIgnoresNameCase(features: seq<Feature>, renamed: seq<Feature>, input: string, project: Projection)
    requires |renamed| == |features|
    requires forall j :: 0 <= j < |features| ==>
      EqualIgnoringCase(renamed[j].name, features[j].name)
      && renamed[j].lat == features[j].lat && renamed[j].lon == features[j].lon
    ensures SearchCountry(renamed, input, project) == SearchCountry(features, input, project)
  {
    var term := ToLowerCase(input);
    forall j | 0 <= j < |features|
      ensures CountryMatches(renamed[j], term) == CountryMatches(features[j], term)
    {
      LowerCaseEqualIff(renamed[j].name, features[j].name);
    }
    var r := SearchCountry(features, input, project);
    if r.Found? {
      var i :| IsFirst(features, CountryPredicate(term), i)
        && r.target == Aim(project, features[i].lat, features[i].lon);
      CountryFindsEarliest(renamed, input, project, i);
    }
  }

  /**
   The country term is not trimmed and the empty string is contained in every
   name, so an empty term zooms to the first feature of a non-empty collection.
   */
  lemma CountryEmptyTermTakesFirst(features: seq<Feature>, project: Projection)
    requires |features| > 0
    ensures SearchCountry(features, "", project) == Found(Aim(project, features[0].lat, features[0].lon))
  {
    IncludesEmpty(ToLowerCase(features[0].name));
    CountryFindsEarliest(features, "", project, 0);
  }

  /** A term padded with a space is searched as typed and misses a name it would otherwise hit. */
  lemma CountryTermNotTrimmed(project: Projection)
    ensures SearchCountry([Feature("France", 46.0, 2.0)], "france", project).Found?
    ensures SearchCountry([Feature("France", 46.0, 2.0)], " france", project) == NotFound
  {
    var name := ToLowerCase("France");
    assert name == "france";
    assert StartsWith(name, "france");
  }

  // ----- Location search -----

  /**
   The search key: the input trimmed, then lower-cased. It is the lower-cased
   input with its white-space padding stripped, and is empty exactly for
   blank input.
   */
  function LocationKey(input: string): (key: string)
    ensures key == [] <==> AllWhiteSpace(input)
    ensures IsTrimmed(key)
    ensures StripsTo(ToLowerCase(input), key)
  {
    LowerCaseKeepsShape(Trim(input));
    LowerCaseCommutesWithTrim(input);
    TrimStrips(ToLowerCase(input));
    ToLowerCase(Trim(input))
  }

  /** The key is the one trimmed string the lower-cased input strips to. */
  lemma LocationKeyIff(input: string, k: string)
    ensures LocationKey(input) == k <==> IsTrimmed(k) && StripsTo(ToLowerCase(input), k)
  {
    LowerCaseCommutesWithTrim(input);
    TrimIff(ToLowerCase(input), k);
  }

  /** The lower-cased location name equals the key exactly. */
  predicate LocationMatches(l: Location, key: string) {
    ToLowerCase(l.name) == key
  }

  function LocationPredicate(key: string): Location -> bool {
    l => LocationMatches(l, key)
  }

  /** `searchLocation`: reject a blank input, otherwise zoom to the first exact match. */
  function SearchLocation(locations: seq<Location>, input: string, project: Projection): (r: Outcome)
    ensures r.Rejected? <==> AllWhiteSpace(input)
    ensures r.NotFound? <==> (!AllWhiteSpace(input)
      && forall j :: 0 <= j < |locations| ==> !LocationMatches(locations[j], LocationKey(input)))
    ensures r.Found? ==>
      exists i :: IsFirst(locations, LocationPredicate(LocationKey(input)), i)
        && r.target == Aim(project, locations[i].lat, locations[i].lon)
  {
    var key := LocationKey(input);
    if key == [] then Rejected
    else match Find(locations, LocationPredicate(key))
      case None =>
        assert forall j :: 0 <= j < |locations| ==> !LocationPredicate(key)(locations[j]);
        NotFound
      case Some(i) => Found(Aim(project, locations[i].lat, locations[i].lon))
  }

  /** A name a search can reach: non-empty and without white space at either end. */
  predicate Searchable(name: string) {
    name != [] && IsTrimmed(name)
  }

  /**
   Any re-casing of a searchable stored name, surrounded by any white space,
   finds that location when no earlier location has the same lower-cased name.
   */
  lemma LocationFindsRecasedName(locations: seq<Location>, i: int, p: string, typed: string, q: string,
                                 project: Projection)
    requires 0 <= i < |locations| && Searchable(locations[i].name)
    requires forall j :: 0 <= j < i ==> ToLowerCase(locations[j].name) != ToLowerCase(locations[i].name)
    requires AllWhiteSpace(p) && AllWhiteSpace(q) && EqualIgnoringCase(typed, locations[i].name)
    ensures SearchLocation(locations, p + typed + q, project)
      == Found(Aim(project, locations[i].lat, locations[i].lon))
  {
    var name := locations[i].name;
    EqualIgnoringCaseKeepsTrimmed(typed, name);
    TrimRemovesPadding(p, typed, q);
    LowerCaseEqualIff(typed, name);
    var key := LocationKey(p + typed + q);
    assert key == ToLowerCase(name) && key != [];
    assert IsFirst(locations, LocationPredicate(key), i) by {
      assert LocationPredicate(key)(locations[i]);
      forall j | 0 <= j < i ensures !LocationPredicate(key)(locations[j]) {
      }
    }
    FindReturnsTheFirst(locations, LocationPredicate(key), i);
  }

  /**
   A stored name that is empty or has white space at an end is never matched:
   the key of every non-blank input differs from its lower-cased form.
   */
  lemma LocationUnsearchableNameUnreachable(name: string, input: string)
    requires !Searchable(name)
    ensures !AllWhiteSpace(input) ==> LocationKey(input) != ToLowerCase(name)
  {
    var lname := ToLowerCase(name);
    if name != [] {
      LowerCharKeepsWhiteSpace(name[0]);
      LowerCharKeepsWhiteSpace(name[|name| - 1]);
      assert !IsTrimmed(lname);
    }
  }

  /** "tok" is part of "Tokyo", so the country rule accepts it. */
  lemma CountryAcceptsPartOfName(project: Projection)
    ensures SearchCountry([Feature("Tokyo", 35.6762, 139.6503)], "tok", project).Found?
  {
    var name := ToLowerCase("Tokyo");
    assert |name| == 5;
    assert name[..3] == "tok";
    assert StartsWith(name, "tok");
  }

  /** The location rule compares whole names: "tok" does not find Tokyo. */
  lemma LocationNeedsWholeName(project: Projection)
    ensures SearchLocation([Location("Tokyo", 35.6762, 139.6503)], "tok", project) == NotFound
  {
    assert !IsWhiteSpace("tok"[0]);
    assert |ToLowerCase("Tokyo")| == 5;
    assert |LocationKey("tok")| == 3;
  }

  /** The string facts behind the Tokyo scenario. */
  lemma TokyoInput()
    ensures EqualIgnoringCase("tOKYO", "Tokyo") && Searchable("Tokyo") && AllWhiteSpace(" ")
    ensures " tOKYO " == " " + "tOKYO" + " "
  {
    var typed, name := "tOKYO", "Tokyo";
    assert LowerChar(typed[0]) == LowerChar(name[0]) == 't';
    assert LowerChar(typed[1]) == LowerChar(name[1]) == 'o';
    assert LowerChar(typed[2]) == LowerChar(name[2]) == 'k';
    assert LowerChar(typed[3]) == LowerChar(name[3]) == 'y';
    assert LowerChar(typed[4]) == LowerChar(name[4]) == 'o';
    assert !IsWhiteSpace(name[0]) && !IsWhiteSpace(name[4]);
    assert IsWhiteSpace(' ');
  }

  /** Searching " tOKYO " among one Tokyo entry zooms to Tokyo's projected point, two units out along z. */
  lemma TokyoScenario(project: Projection)
    ensures SearchLocation([Location("Tokyo", 35.6762, 139.6503)], " tOKYO ", project)
      == Found(Vec3(project(35.6762, 139.6503, 1.05).x, project(35.6762, 139.6503, 1.05).y,
                    project(35.6762, 139.6503, 1.05).z + 2.0))
  {
    var locations := [Location("Tokyo", 35.6762, 139.6503)];
    TokyoInput();
    LocationFindsRecasedName(locations, 0, " ", "tOKYO", " ", project);
    assert SearchLocation(locations, " tOKYO ", project) == Found(Aim(project, 35.6762, 139.6503));
  }

  // ----- Alerts of the location search -----

  /** The alert pop-ups `searchLocation` can show. */
  datatype Alert = AskForName | Searching(key: string) | LocationMissing

  /** The text each alert shows. */
  function AlertText(a: Alert): (r: string)
    ensures |r| >= 14 && (r[..14] == "Searching for " <==> a.Searching?)
    ensures a.Searching? ==> r[14..] == a.key
  {
    match a
    case AskForName =>
      var t := "Please enter a location name.";
      assert t[..14][0] != 'S';
      t
    case Searching(key) => "Searching for " + key
    case LocationMissing =>
      var t := "Location not found!";
      assert t[..14][0] != 'S';
      t
  }

  /** The alerts `searchLocation` shows, in order. */
  function LocationAlerts(locations: seq<Location>, input: string): (r: seq<Alert>)
    ensures 1 <= |r| <= 2
    ensures r[0] == AskForName <==> AllWhiteSpace(input)
    ensures !AllWhiteSpace(input) ==> r[0] == Searching(LocationKey(input))
    ensures |r| == 2 <==> (!AllWhiteSpace(input)
      && forall j :: 0 <= j < |locations| ==> !LocationMatches(locations[j], LocationKey(input)))
    ensures |r| == 2 ==> r[1] == LocationMissing
  {
    var key := LocationKey(input);
    if key == [] then [AskForName]
    else match Find(locations, LocationPredicate(key))
      case None =>
        assert forall j :: 0 <= j < |locations| ==> !LocationPredicate(key)(locations[j]);
        [Searching(key), LocationMissing]
      case Some(_) => [Searching(key)]
  }

  /**
   The alerts agree with the outcome: a rejected search only asks for a name;
   every other search first announces the key it searches for; a second alert
   reports a miss exactly when nothing was found.
   */
  lemma AlertsMatchOutcome(locations: seq<Location>, input: string, project: Projection)
    ensures var r := SearchLocation(locations, input, project);
      var alerts := LocationAlerts(locations, input);
      && (r.Rejected? <==> alerts == [AskForName])
      && (r.NotFound? <==> alerts == [Searching(LocationKey(input)), LocationMissing])
      && (r.Found? <==> alerts == [Searching(LocationKey(input))])
  {
    var key := LocationKey(input);
    if key != [] {
      match Find(locations, LocationPredicate(key))
      case None =>
      case Some(i) =>
    }
  }

  /** No two alerts show the same text. */
  lemma AlertTextsDistinct(a: Alert, b: Alert)
    ensures AlertText(a) == AlertText(b) <==> a == b
  {
    var ta, tb := AlertText(a), AlertText(b);
    if a != b {
      if a.Searching? && b.Searching? {
        assert ta[14..] == a.key && tb[14..] == b.key;
      } else if !a.Searching? && !b.Searching? {
        assert ta[0] != tb[0];
      } else {
        assert ta[1] != tb[1];
      }
    }
  }
}
