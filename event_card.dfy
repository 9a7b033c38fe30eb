/** The map-marker helpers of an event card: the places a text points to
    with the map marker, and the text with the markers taken out for
    display. */
module EventCard {
  import opened Common

  /** U+1F5FA WORLD MAP followed by U+FE0F VARIATION SELECTOR-16. */
  const Marker: string := "\U{1F5FA}\U{FE0F}"
  const MapGlyph: char := '\U{1F5FA}'

  /** The text up to its first line feed. */
  function FirstLine(s: string): string {
    Split(s, "\n")[0]
  }

  lemma {:induction false} FirstLineShape(s: string)
    ensures StartsWith(s, FirstLine(s)) && !Contains(FirstLine(s), "\n")
  {
    SplitFirstIsPrefix(s, "\n");
    SplitPiecesFree(s, "\n");
    assert Split(s, "\n")[0] in Split(s, "\n");
  }

  /** The place a marker points to: the rest of the marker's line, trimmed. */
  function LocationAfter(part: string): string {
    Trim(FirstLine(part))
  }

  /** The non-empty places of the pieces that follow markers, in order. */
  function Locations(parts: seq<string>): (r: seq<string>)
    ensures |r| <= |parts|
  {
    if parts == [] then [] else Locations(Front(parts)) + Place(Last(parts))
  }

  /** The place of one piece, when it is not empty. */
  function Place(part: string): (r: seq<string>)
    ensures |r| <= 1
  {
    var loc := LocationAfter(part);
    if loc != [] then [loc] else []
  }

  /** What extractMapLocations returns: nothing for an empty text, else the
      place after each marker. */
  function MapLocations(text: string): seq<string> {
    if text == [] then [] else Locations(Split(text, Marker)[1..])
  }

  /** extractMapLocations: splits at the markers and keeps the non-empty
      first line of every piece after the first. */
  method ExtractMapLocations(text: string) returns (locations: seq<string>)
    ensures locations == MapLocations(text)
  {
    if text == [] {
      return [];
    }
    var parts := Split(text, Marker);
    locations := PlacesAfterFirst(parts);
  }

  /** The loop of extractMapLocations over the pieces after the first. */
  method PlacesAfterFirst(parts: seq<string>) returns (locations: seq<string>)
    requires parts != []
    ensures locations == Locations(parts[1..])
  {
    locations := [];
    var i := 1;
    while i < |parts|
      invariant 1 <= i <= |parts|
      invariant locations == Locations(parts[1..i])
    {
      var locationText := Trim(Split(parts[i], "\n")[0]);
      LocationsStep(parts, i, locationText);
      if locationText != [] {
        locations := locations + [locationText];
      }
      i := i + 1;
    }
    assert parts[1..i] == parts[1..];
  }

  /** One more piece adds its place, if it has one. */
  lemma {:induction false} LocationsStep(parts: seq<string>, i: nat, locationText: string)
    requires 1 <= i < |parts| && locationText == Trim(Split(parts[i], "\n")[0])
    ensures Locations(parts[1..i + 1]) == Locations(parts[1..i]) + (if locationText != [] then [locationText] else [])
  {
    var done := parts[1..i + 1];
    assert Front(done) == parts[1..i] && Last(done) == parts[i];
  }

  /** The places of consecutive stretches of pieces, one after the other. */
  lemma {:induction false} LocationsAppend(a: seq<string>, b: seq<string>)
    ensures Locations(a + b) == Locations(a) + Locations(b)
    decreases |b|
  {
    if b != [] {
      var ab := a + b;
      assert Last(ab) == Last(b);
      assert Front(ab) == a + Front(b);
      LocationsAppend(a, Front(b));
      assert Locations(ab) == Locations(a + Front(b)) + Place(Last(b));
    } else {
      assert a + b == a;
    }
  }

  /** An empty text, and a text without a marker, point nowhere. */
  lemma {:induction false} MapLocationsNone(text: string)
    requires text == [] || !Contains(text, Marker)
    ensures MapLocations(text) == []
  {
    if text != [] {
      SplitWithout(text, Marker);
    }
  }

  /** The number of non-overlapping occurrences of `t`, found from the left. */
  function Occurrences(s: string, t: string): nat
    requires t != []
    decreases |s|
  {
    if |s| < |t| then 0
    else if s[..|t|] == t then 1 + Occurrences(s[|t|..], t)
    else Occurrences(s[1..], t)
  }

  /** A split has one piece more than there are separators. */
  lemma {:induction false} SplitCount(s: string, t: string)
    requires t != []
    ensures |Split(s, t)| == Occurrences(s, t) + 1
    decreases |s|
  {
    if |s| < |t| {
    } else if s[..|t|] == t {
      SplitCount(s[|t|..], t);
    } else {
      SplitCount(s[1..], t);
    }
  }

  /** There are at most as many places as markers. */
  lemma {:induction false} MapLocationsCount(text: string)
    ensures |MapLocations(text)| <= Occurrences(text, Marker)
  {
    SplitCount(text, Marker);
  }

  /** A place: non-empty, trimmed, on one line and free of markers. */
  predicate IsPlace(loc: string) {
    loc != [] && IsTrimmed(loc) && !Contains(loc, "\n") && !Contains(loc, Marker)
  }

  lemma {:induction false} LocationAfterShape(part: string)
    requires !Contains(part, Marker) && LocationAfter(part) != []
    ensures IsPlace(LocationAfter(part))
  {
    var line := FirstLine(part);
    FirstLineShape(part);
    var loc := Trim(line);
    var k :| TrimmedAt(line, loc, k);
    ContainsWithin(line, loc, k, "\n");
    ContainsWithin(line, loc, k, Marker);
    assert HasAt(part, line, 0);
    ContainsWithin(part, line, 0, Marker);
  }

  lemma {:induction false} LocationsShape(parts: seq<string>)
    requires forall p :: p in parts ==> !Contains(p, Marker)
    ensures forall loc :: loc in Locations(parts) ==> IsPlace(loc)
  {
    if parts != [] {
      LocationsShape(Front(parts));
      if LocationAfter(Last(parts)) != [] {
        LocationAfterShape(Last(parts));
      }
    }
  }

  /** Every place found is non-empty and trimmed, and holds neither a line
      feed nor a marker. */
  lemma {:induction false} MapLocationsShape(text: string)
    ensures forall loc :: loc in MapLocations(text) ==> IsPlace(loc)
  {
    if text != [] {
      var parts := Split(text, Marker);
      SplitPiecesFree(text, Marker);
      LocationsShape(parts[1..]);
    }
  }

  /** Piece `i` of `parts` has the non-empty place `loc`. */
  predicate PlaceAt(parts: seq<string>, i: int, loc: string) {
    0 <= i < |parts| && LocationAfter(parts[i]) == loc != []
  }

  /** Each place comes from a piece after a marker... */
  lemma {:induction false} LocationsSound(parts: seq<string>, loc: string)
    requires loc in Locations(parts)
    ensures exists i :: PlaceAt(parts, i, loc)
  {
    var f := Front(parts);
    if loc in Locations(f) {
      LocationsSound(f, loc);
      var i :| PlaceAt(f, i, loc);
      assert parts[i] == f[i];
      assert PlaceAt(parts, i, loc);
    } else {
      assert loc in Place(Last(parts));
      assert PlaceAt(parts, |parts| - 1, loc);
    }
  }

  /** ...and every piece after a marker with a non-empty first line gives a
      place. */
  lemma {:induction false} LocationsComplete(parts: seq<string>, i: nat)
    requires i < |parts| && LocationAfter(parts[i]) != []
    ensures LocationAfter(parts[i]) in Locations(parts)
  {
    var f := Front(parts);
    var loc := LocationAfter(parts[i]);
    if i == |parts| - 1 {
      assert Place(parts[i]) == [loc];
    } else {
      assert parts[i] == f[i];
      LocationsComplete(f, i);
    }
  }

  /* ---------- removeMapEmoji ---------- */

  /** removeMapEmoji: every marker is deleted together with the white space
      right after it; the empty text is returned as it is. */
  function RemoveMapEmoji(text: string): (r: string)
    ensures |r| <= |text|
    decreases |text|
  {
    if |text| >= |Marker| && text[..|Marker|] == Marker then RemoveMapEmoji(TrimStart(text[|Marker|..]))
    else if text == [] then []
    else [text[0]] + RemoveMapEmoji(text[1..])
  }

  /** The pieces after the first with their leading white space removed,
      run together. */
  function TrimmedRest(parts: seq<string>): string {
    if parts == [] then [] else TrimStart(parts[0]) + TrimmedRest(parts[1..])
  }

  /** The reference for removeMapEmoji: split at the markers, drop the
      white space that starts every piece after the first, and glue the
      pieces back without separators. */
  function Glue(parts: seq<string>): string
    requires parts != []
  {
    parts[0] + TrimmedRest(parts[1..])
  }

  /** Dropping leading white space only touches the first piece of a split
      at the markers: no white space begins a marker. */
  lemma {:induction false} SplitTrimStart(u: string)
    ensures Split(TrimStart(u), Marker) == [TrimStart(Split(u, Marker)[0])] + Split(u, Marker)[1..]
    decreases |u|
  {
    if u == [] {
      var x := Split(u, Marker);
      assert x == [u] && x[1..] == [];
      assert [TrimStart(x[0])] + x[1..] == [u];
    } else if !IsSpace(u[0]) {
      SplitHeadKeepsStart(u);
      assert TrimStart(u) == u;
    } else {
      SplitTrimStart(u[1..]);
      SplitSpaceStep(u);
      assert TrimStart(u) == TrimStart(u[1..]);
    }
  }

  /** A text that does not begin with white space splits into pieces the
      first of which does not either. */
  lemma {:induction false} SplitHeadKeepsStart(u: string)
    requires u != [] && !IsSpace(u[0])
    ensures TrimStart(Split(u, Marker)[0]) == Split(u, Marker)[0]
  {
    var parts := Split(u, Marker);
    if |u| >= |Marker| && u[..|Marker|] == Marker {
      assert parts[0] == [];
    } else if |u| < |Marker| {
      assert parts == [u];
    } else {
      assert parts[0][0] == u[0];
    }
  }

  /** A leading white-space character is part of the first piece: dropping
      it shortens that piece and leaves the others. */
  lemma {:induction false} SplitSpaceStep(u: string)
    requires u != [] && IsSpace(u[0])
    ensures TrimStart(Split(u, Marker)[0]) == TrimStart(Split(u[1..], Marker)[0])
    ensures Split(u, Marker)[1..] == Split(u[1..], Marker)[1..]
  {
    if |u| < |Marker| {
      SplitSpaceShort(u);
    } else {
      SplitSpaceLong(u);
    }
  }

  lemma {:induction false} SplitSpaceShort(u: string)
    requires u != [] && IsSpace(u[0]) && |u| < |Marker|
    ensures TrimStart(Split(u, Marker)[0]) == TrimStart(Split(u[1..], Marker)[0])
    ensures Split(u, Marker)[1..] == Split(u[1..], Marker)[1..]
  {
    var x, y := Split(u, Marker), Split(u[1..], Marker);
    assert x == [u] && y == [u[1..]];
    assert x[1..] == [] && y[1..] == [];
    assert TrimStart(u) == TrimStart(u[1..]);
  }

  lemma {:induction false} SplitSpaceLong(u: string)
    requires |u| >= |Marker| && IsSpace(u[0])
    ensures TrimStart(Split(u, Marker)[0]) == TrimStart(Split(u[1..], Marker)[0])
    ensures Split(u, Marker)[1..] == Split(u[1..], Marker)[1..]
  {
    var rest := Split(u[1..], Marker);
    assert u[..|Marker|] != Marker by {
      assert u[0] != Marker[0];
    }
    var head := [u[0]] + rest[0];
    assert Split(u, Marker) == [head] + rest[1..];
    assert head[0] == u[0] && head[1..] == rest[0];
    assert TrimStart(head) == TrimStart(rest[0]);
    assert ([head] + rest[1..])[1..] == rest[1..];
  }

  /** removeMapEmoji agrees with the reference. */
  lemma {:induction false} RemoveIsGlue(s: string)
    ensures RemoveMapEmoji(s) == Glue(Split(s, Marker))
    decreases |s|
  {
    if |s| < |Marker| {
      if s != [] {
        assert RemoveMapEmoji(s[1..]) == [];
        assert [s[0]] + s[1..] == s;
      }
    } else if s[..|Marker|] == Marker {
      RemoveIsGlue(TrimStart(s[|Marker|..]));
      GlueAtMarker(s);
    } else {
      RemoveIsGlue(s[1..]);
      GlueAtOther(s);
    }
  }

  /** The step of RemoveIsGlue at a marker. */
  lemma {:induction false} GlueAtMarker(s: string)
    requires |s| >= |Marker| && s[..|Marker|] == Marker
    requires RemoveMapEmoji(TrimStart(s[|Marker|..])) == Glue(Split(TrimStart(s[|Marker|..]), Marker))
    ensures RemoveMapEmoji(s) == Glue(Split(s, Marker))
  {
    var u := s[|Marker|..];
    SplitTrimStart(u);
    SplitAtMarker(s);
    GlueSkip(Split(u, Marker));
  }

  lemma {:induction false} SplitAtMarker(s: string)
    requires |s| >= |Marker| && s[..|Marker|] == Marker
    ensures Split(s, Marker) == [[]] + Split(s[|Marker|..], Marker)
  {
  }

  lemma {:induction false} GlueSkip(parts: seq<string>)
    requires parts != []
    ensures Glue([[]] + parts) == Glue([TrimStart(parts[0])] + parts[1..])
  {
    assert ([[]] + parts)[1..] == parts;
    assert ([TrimStart(parts[0])] + parts[1..])[1..] == parts[1..];
  }

  /** The step of RemoveIsGlue at any other character. */
  lemma {:induction false} GlueAtOther(s: string)
    requires |s| >= |Marker| && s[..|Marker|] != Marker
    requires RemoveMapEmoji(s[1..]) == Glue(Split(s[1..], Marker))
    ensures RemoveMapEmoji(s) == Glue(Split(s, Marker))
  {
    SplitAtOther(s);
    GlueCons(s[0], Split(s[1..], Marker));
  }

  lemma {:induction false} SplitAtOther(s: string)
    requires |s| >= |Marker| && s[..|Marker|] != Marker
    ensures Split(s, Marker) == [[s[0]] + Split(s[1..], Marker)[0]] + Split(s[1..], Marker)[1..]
  {
  }

  lemma {:induction false} GlueCons(c: char, rest: seq<string>)
    requires rest != []
    ensures Glue([[c] + rest[0]] + rest[1..]) == [c] + Glue(rest)
  {
    assert ([[c] + rest[0]] + rest[1..])[1..] == rest[1..];
  }

  /** A text without markers is shown unchanged. */
  lemma {:induction false} RemoveWithoutMarker(text: string)
    requires !Contains(text, Marker)
    ensures RemoveMapEmoji(text) == text
  {
    RemoveIsGlue(text);
    SplitWithout(text, Marker);
  }

  /** Every U+1F5FA in the text begins a marker. */
  predicate NoLoneGlyph(s: string) {
    forall i :: 0 <= i < |s| && s[i] == MapGlyph ==> i + 1 < |s| && s[i + 1] == '\U{FE0F}'
  }

  /** When every U+1F5FA begins a marker, the display text holds no
      U+1F5FA at all. */
  lemma {:induction false} RemoveDropsGlyph(s: string)
    requires NoLoneGlyph(s)
    ensures MapGlyph !in RemoveMapEmoji(s)
    decreases |s|
  {
    if |s| >= |Marker| && s[..|Marker|] == Marker {
      var u := s[|Marker|..];
      var t := TrimStart(u);
      TrimStartSuffix(u);
      assert t == s[|s| - |t|..];
      NoLoneGlyphSuffix(s, |s| - |t|);
      RemoveDropsGlyph(t);
    } else if s != [] {
      NoLoneGlyphSuffix(s, 1);
      RemoveDropsGlyph(s[1..]);
      RemoveAtOther(s);
    }
  }

  /** A text in which every U+1F5FA begins a marker keeps that on its
      suffixes. */
  lemma {:induction false} NoLoneGlyphSuffix(s: string, k: nat)
    requires NoLoneGlyph(s) && k <= |s|
    ensures NoLoneGlyph(s[k..])
  {
    forall i | 0 <= i < |s| - k && s[k..][i] == MapGlyph
      ensures i + 1 < |s| - k && s[k..][i + 1] == '\U{FE0F}'
    {
      assert s[k + i] == MapGlyph;
    }
  }

  lemma {:induction false} RemoveAtOther(s: string)
    requires s != [] && !(|s| >= |Marker| && s[..|Marker|] == Marker)
    ensures RemoveMapEmoji(s) == [s[0]] + RemoveMapEmoji(s[1..])
  {
  }

  /** ...so a cleaned text points nowhere. */
  lemma {:induction false} RemovedHasNoLocations(s: string)
    requires NoLoneGlyph(s)
    ensures MapLocations(RemoveMapEmoji(s)) == []
  {
    var r := RemoveMapEmoji(s);
    RemoveDropsGlyph(s);
    NoGlyphNoMarker(r);
    MapLocationsNone(r);
  }

  lemma {:induction false} NoGlyphNoMarker(r: string)
    requires MapGlyph !in r
    ensures !Contains(r, Marker)
  {
    forall k | 0 <= k <= |r| - |Marker|
      ensures !HasAt(r, Marker, k)
    {
      assert r[k] != MapGlyph;
      assert r[k..k + |Marker|][0] == r[k];
    }
  }

  /** A lone U+1F5FA followed by a marker and one more character `c`
      that is not white space: the marker goes, and the glyph and `c`
      close up. */
  lemma {:induction false} RemoveClosesUp(c: char)
    requires !IsSpace(c)
    ensures RemoveMapEmoji([MapGlyph] + Marker + [c]) == [MapGlyph, c]
  {
    RemoveMarkerSingle(c);
    RemoveGlyphBefore(Marker + [c]);
    AppendAssoc([MapGlyph], Marker, [c]);
  }

  /** A marker followed by one character that is not white space leaves
      that character. */
  lemma {:induction false} RemoveMarkerSingle(c: char)
    requires !IsSpace(c)
    ensures RemoveMapEmoji(Marker + [c]) == [c]
  {
    RemoveAtMarker([c]);
    RemoveSingle(c);
  }

  /** A U+1F5FA followed by another U+1F5FA does not begin a marker. */
  lemma {:induction false} RemoveGlyphBefore(u: string)
    requires u != [] && u[0] == MapGlyph
    ensures RemoveMapEmoji([MapGlyph] + u) == [MapGlyph] + RemoveMapEmoji(u)
  {
    var s := [MapGlyph] + u;
    assert s[..2][1] != Marker[1];
    assert s[1..] == u;
    RemoveAtOther(s);
  }

  /** A single character that is not white space is kept as it is. */
  lemma {:induction false} RemoveSingle(c: char)
    requires !IsSpace(c)
    ensures TrimStart([c]) == [c] && RemoveMapEmoji([c]) == [c]
  {
    assert [c][1..] == [];
  }

  /** Without that condition a marker can survive: a lone U+1F5FA before a
      marker and a U+FE0F after it close up into a new one. */
  lemma {:induction false} RemoveCanLeaveMarker()
    ensures RemoveMapEmoji([MapGlyph] + Marker + ['\U{FE0F}']) == Marker
  {
    RemoveClosesUp('\U{FE0F}');
  }

  /** At a marker, removal skips it and the white space after it. */
  lemma {:induction false} RemoveAtMarker(rest: string)
    ensures RemoveMapEmoji(Marker + rest) == RemoveMapEmoji(TrimStart(rest))
  {
    var s := Marker + rest;
    assert s[..|Marker|] == Marker && s[|Marker|..] == rest;
  }

  /* ---------- allMapLocations ---------- */

  /** The places of a card: those of its title, then its description, then
      its location field. */
  function AllMapLocations(title: string, description: string, location: string): seq<string> {
    MapLocations(title) + MapLocations(description) + MapLocations(location)
  }

  /** Every place of a card is a place of one of its three texts, and at
      most one per marker. */
  lemma {:induction false} AllMapLocationsShape(title: string, description: string, location: string)
    ensures forall loc :: loc in AllMapLocations(title, description, location) ==> IsPlace(loc)
    ensures |AllMapLocations(title, description, location)| <=
      Occurrences(title, Marker) + Occurrences(description, Marker) + Occurrences(location, Marker)
  {
    MapLocationsShape(title);
    MapLocationsShape(description);
    MapLocationsShape(location);
    MapLocationsCount(title);
    MapLocationsCount(description);
    MapLocationsCount(location);
  }
}
