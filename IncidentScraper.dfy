/** The record-page parser of scraper/incident_scraper.py, with the HTML
    library replaced by its results: a page is the list of `str(tag)`
    strings of its `h1`, `h2` and `span` elements, in document order. */
module IncidentScraper {
  import opened PyStr

  const H1Open: String := "<h1>"
  const H1Close: String := "</h1>"
  const SpanOpen: String := "<span>"
  const SpanClose: String := "</span>"
  /** Separator between city and state in the city/state span. */
  const CitySep: String := ", "

  predicate IsComma(c: char) { c == ',' }

  /** `str(tag).replace('<h1>', '').replace('</h1>', '')` */
  function StripH1(tag: String): String {
    RemoveAll(RemoveAll(tag, H1Open), H1Close)
  }

  /** `span.replace('<span>', '').replace('</span>', '')` */
  function StripSpan(tag: String): String {
    RemoveAll(RemoveAll(tag, SpanOpen), SpanClose)
  }

  /** The list comprehension that strips the tags of every span: same number
      of spans, same order, each one stripped. */
  function StripSpans(spans: seq<String>): (r: seq<String>)
    ensures |r| == |spans|
    ensures forall i :: 0 <= i < |spans| ==> r[i] == StripSpan(spans[i])
  {
    seq(|spans|, i requires 0 <= i < |spans| => StripSpan(spans[i]))
  }

  /** `str(tag)` of an attribute-free `span` whose content is `t`. */
  function WrapSpan(t: String): String { SpanOpen + t + SpanClose }

  /** Stripping gives back the text of a span whose text has no '<'. */
  lemma StripSpanWrapped(t: String)
    requires '<' !in t
    ensures StripSpan(WrapSpan(t)) == t
  {
    CloseTagFree("span");
    assert SpanClose == "</" + "span" + ">" && SpanOpen == "<" + "span" + ">";
    RemoveWrapped(SpanOpen, t, SpanClose);
  }

  /** Tag stripping inverts the rendering of a whole span list. */
  lemma StripSpansWrapped(texts: seq<String>)
    requires forall i :: 0 <= i < |texts| ==> '<' !in texts[i]
    ensures StripSpans(seq(|texts|, i requires 0 <= i < |texts| => WrapSpan(texts[i]))) == texts
  {
    forall i | 0 <= i < |texts| ensures StripSpan(WrapSpan(texts[i])) == texts[i] {
      StripSpanWrapped(texts[i]);
    }
  }

  lemma StripH1Wrapped(t: String)
    requires '<' !in t
    ensures StripH1(H1Open + t + H1Close) == t
  {
    CloseTagFree("h1");
    assert H1Close == "</" + "h1" + ">" && H1Open == "<" + "h1" + ">";
    RemoveWrapped(H1Open, t, H1Close);
  }

  /** Tag removal drops the occurrences of the tag found scanning left to
      right, so a tag split by another one survives: the text left after
      the inner tag goes is not looked at again. */
  lemma NestedSpanSurvives()
    ensures StripSpan("<sp" + SpanOpen + "an>") == SpanOpen
  {
    assert RemoveAll("<sp" + SpanOpen + "an>", SpanOpen) == SpanOpen by {
      NestedOpenRemoved();
    }
    assert RemoveAll(SpanOpen, SpanClose) == SpanOpen by {
      CloseTagFree("span");
      assert SpanOpen == "<" + "span" + ">" && SpanClose == "</" + "span" + ">";
      RemoveAllNoMatch(SpanOpen, SpanClose);
    }
  }

  /** The inner `<span>` goes, and what closes up around it is a new one. */
  lemma NestedOpenRemoved()
    ensures RemoveAll("<sp" + SpanOpen + "an>", SpanOpen) == SpanOpen
  {
    NestedPrefixKept();
    InnerOpenRemoved();
    assert "<sp" + "an>" == SpanOpen;
  }

  lemma NestedPrefixKept()
    ensures RemoveAll("<sp" + SpanOpen + "an>", SpanOpen) == "<sp" + RemoveAll(SpanOpen + "an>", SpanOpen)
  {
    var tail := SpanOpen + "an>";
    var rest := "sp" + tail;
    assert "<sp" + SpanOpen + "an>" == [SpanOpen[0]] + rest;
    assert !MatchAt([SpanOpen[0]] + rest, SpanOpen, 0) by {
      assert ([SpanOpen[0]] + rest)[3] == SpanOpen[0] != SpanOpen[3];
    }
    RemoveAllMiss(SpanOpen[0], rest, SpanOpen);
    RemoveAllFreePrefix("sp", tail, SpanOpen);
    assert [SpanOpen[0]] + ("sp" + RemoveAll(tail, SpanOpen)) == "<sp" + RemoveAll(tail, SpanOpen);
  }

  lemma InnerOpenRemoved()
    ensures RemoveAll(SpanOpen + "an>", SpanOpen) == "an>"
  {
    RemoveAllLeading(SpanOpen, "an>");
    assert "an>" == "an>" + [];
    RemoveAllFreePrefix("an>", [], SpanOpen);
  }

  // ---------------------------------------------------------------------
  // scrape_header
  // ---------------------------------------------------------------------

  /** What `scrape_header` needs to run without an IndexError: an `h1`
      element, and a last one whose text is not blank. */
  predicate HeaderParsable(h1s: seq<String>) {
    |h1s| > 0 && !IsBlank(StripH1(h1s[|h1s| - 1]))
  }

  /** `scrape_header`: the first whitespace token of the last `h1`, tags
      removed, followed by one ','. */
  function ScrapeHeader(h1s: seq<String>): (r: String)
    requires HeaderParsable(h1s)
    ensures |r| >= 2 && r[|r| - 1] == ','
    ensures var t := StripH1(h1s[|h1s| - 1]); var lead := LeadLen(t);
      lead < |t| && r[..|r| - 1] == t[lead..][..TokenLen(t[lead..])]
  {
    var tag := StripH1(h1s[|h1s| - 1]);
    WordsEmptyIffBlank(tag);
    FirstWord(tag);
    var date := Words(tag)[0];
    assert (date + ",")[..|date|] == date;
    date + ","
  }

  /** A last heading `<h1>date rest</h1>` yields `date,`. */
  lemma ScrapeHeaderOfTitle(h1s: seq<String>, date: String, rest: String)
    requires IsWord(date) && '<' !in date && '<' !in rest
    ensures HeaderParsable(h1s + [H1Open + date + " " + rest + H1Close])
    ensures ScrapeHeader(h1s + [H1Open + date + " " + rest + H1Close]) == date + ","
  {
    var text := date + " " + rest;
    var tag := H1Open + text + H1Close;
    var all := h1s + [tag];
    assert tag == H1Open + date + " " + rest + H1Close;
    assert all[|all| - 1] == tag;
    assert '<' !in text;
    StripH1Wrapped(text);
    assert text == date + [' '] + rest;
    WordsCons(date, ' ', rest);
    WordsEmptyIffBlank(text);
    assert Words(text)[0] == date;
    assert StripH1(all[|all| - 1]) == text;
    assert HeaderParsable(all);
    assert ScrapeHeader(all) == Words(text)[0] + ",";
  }

  // ---------------------------------------------------------------------
  // scrape_location
  // ---------------------------------------------------------------------

  /** `city = spans[-3].split(', ')[0]`: the text before the first ", ". */
  function City(cityState: String): (r: String)
    requires Contains(cityState, CitySep)
    ensures |r| <= |cityState| && r == cityState[..|r|]
    ensures MatchAt(cityState, CitySep, |r|)
    ensures forall i :: 0 <= i < |r| ==> !MatchAt(cityState, CitySep, i)
  {
    SplitContains(cityState, CitySep);
    SplitFirstPiece(cityState, CitySep);
    SplitFirstPrefix(cityState, CitySep);
    Split(cityState, CitySep)[0]
  }

  /** `state = spans[-3].split(', ')[1]` */
  function State(cityState: String): String
    requires Contains(cityState, CitySep)
  {
    SplitContains(cityState, CitySep);
    Split(cityState, CitySep)[1]
  }

  /** `spans[-2].split()[1].strip(',')` */
  function Lat(geo: String): String
    requires |Words(geo)| >= 3
  {
    Strip(Words(geo)[1], IsComma)
  }

  /** `spans[-2].split()[2]` */
  function Lon(geo: String): String
    requires |Words(geo)| >= 3
  {
    Words(geo)[2]
  }

  /** What `scrape_location` needs to run without an IndexError: at least
      four spans (it reads `spans[-4]`, and `spans[3]` when there are not
      seven), a ", " in the third span from the end, and three tokens in
      the second span from the end. */
  predicate LocationParsable(raw: seq<String>) {
    var s := StripSpans(raw);
    |s| >= 4 && Contains(s[|s| - 3], CitySep) && |Words(s[|s| - 2])| >= 3
  }

  /** The columns `scrape_location` writes, in order. With seven spans:
      city, state, an empty description, address, lat, lon. Otherwise the
      assignment `data = spans[3] + ','` replaces city and state, leaving
      spans[3], address, lat, lon. */
  function LocationFields(raw: seq<String>): seq<String>
    requires LocationParsable(raw)
  {
    var s := StripSpans(raw);
    var n := |s|;
    if |raw| == 7 then [City(s[n - 3]), State(s[n - 3]), "", s[n - 4], Lat(s[n - 2]), Lon(s[n - 2])]
    else [s[3], s[n - 4], Lat(s[n - 2]), Lon(s[n - 2])]
  }

  /** `scrape_location`, one `data` update after another. */
  function ScrapeLocation(raw: seq<String>): (r: String)
    requires LocationParsable(raw)
    ensures |r| > 0 && r[|r| - 1] == ','
  {
    var nSpans := |raw|;
    var spans := StripSpans(raw);
    var n := |spans|;
    var city := City(spans[n - 3]);
    var state := State(spans[n - 3]);
    var data := city + "," + state + ",";
    var data := if nSpans == 7 then data + "," else spans[3] + ",";
    var data := data + spans[n - 4] + ",";
    var lat := Lat(spans[n - 2]);
    var lon := Lon(spans[n - 2]);
    data + lat + "," + lon + ","
  }

  /** The location string is its columns, each followed by ','. */
  lemma ScrapeLocationFields(raw: seq<String>)
    requires LocationParsable(raw)
    ensures ScrapeLocation(raw) == Terminated(LocationFields(raw), ",")
  {
    var s := StripSpans(raw);
    var n := |s|;
    var lat, lon := Lat(s[n - 2]), Lon(s[n - 2]);
    if |raw| == 7 {
      SevenColumns(City(s[n - 3]), State(s[n - 3]), s[n - 4], lat, lon);
    } else {
      FourColumns(s[3], s[n - 4], lat, lon);
    }
  }

  lemma SevenColumns(city: String, state: String, address: String, lat: String, lon: String)
    ensures city + "," + state + "," + "," + address + "," + lat + "," + lon + ","
         == Terminated([city, state, "", address, lat, lon], ",")
    ensures city + "," + state + ",," + address + "," + lat + "," + lon + ","
         == Terminated([city, state, "", address, lat, lon], ",")
  {
    var t2 := city + "," + state + ",";
    assert Terminated([city, state], ",") == t2 by {
      TerminatedSnoc([city], state, ",");
      assert [city] + [state] == [city, state];
    }
    assert Terminated([city, state, ""], ",") == t2 + "," by {
      TerminatedSnoc([city, state], "", ",");
      assert [city, state] + [""] == [city, state, ""];
      assert t2 + "" == t2;
    }
    assert t2 + "," == city + "," + state + "," + ",";
    assert t2 + "," == city + "," + state + ",,";
    Columns([city, state, ""], address, lat, lon);
    assert [city, state, ""] + [address, lat, lon] == [city, state, "", address, lat, lon];
  }

  /** The last three columns of a location row, appended one at a time. */
  lemma Columns(front: seq<String>, address: String, lat: String, lon: String)
    ensures Terminated(front + [address, lat, lon], ",")
         == Terminated(front, ",") + address + "," + lat + "," + lon + ","
  {
    TerminatedSnoc(front, address, ",");
    TerminatedSnoc(front + [address], lat, ",");
    TerminatedSnoc(front + [address] + [lat], lon, ",");
    assert front + [address] + [lat] + [lon] == front + [address, lat, lon];
  }

  lemma FourColumns(third: String, address: String, lat: String, lon: String)
    ensures third + "," + address + "," + lat + "," + lon + ","
         == Terminated([third, address, lat, lon], ",")
  {
    assert Terminated([third], ",") == third + "," by {
      TerminatedCons(third, [], ",");
    }
    Columns([third], address, lat, lon);
    assert [third] + [address, lat, lon] == [third, address, lat, lon];
  }

  /** Comma-free fields make the location string split back, on ',', into
      its columns: seven pieces (six columns and the empty piece after the
      final ',') for seven spans, five otherwise — the two branches do not
      have the same column count. Six spans never meet the requirement
      (`SixSpanFirstColumnComma`). */
  lemma LocationColumns(raw: seq<String>)
    requires LocationParsable(raw)
    requires forall k :: 0 <= k < |LocationFields(raw)| ==> ',' !in LocationFields(raw)[k]
    ensures Split(ScrapeLocation(raw), ",") == LocationFields(raw) + [[]]
    ensures |Split(ScrapeLocation(raw), ",")| == if |raw| == 7 then 7 else 5
  {
    ScrapeLocationFields(raw);
    TerminatedSplit(LocationFields(raw));
  }

  /** "city, state" with comma-free parts gives back city and state. */
  lemma CityStateParts(city: String, state: String)
    requires ',' !in city && ',' !in state
    ensures Contains(city + CitySep + state, CitySep)
    ensures City(city + CitySep + state) == city
    ensures State(city + CitySep + state) == state
  {
    var s := city + CitySep + state;
    assert s[|city|..|city| + 2] == CitySep;
    assert MatchAt(s, CitySep, |city|);
    forall i | 0 <= i < |city| ensures !MatchAt(s, CitySep, i) {
      assert s[i] == city[i];
      assert s[i..i + 2][0] == s[i];
    }
    SplitAtFirst(city, CitySep, state);
    forall i | 0 <= i <= |state| ensures !MatchAt(state, CitySep, i) {
      if i + 2 <= |state| {
        assert state[i..i + 2][0] == state[i];
      }
    }
    SplitNoMatch(state, CitySep);
  }

  /** "caption lat, lon" gives back lat and lon. */
  lemma GeoParts(caption: String, lat: String, lon: String)
    requires IsWord(caption) && IsWord(lat) && IsWord(lon) && ',' !in lat
    ensures |Words(caption + " " + lat + ", " + lon)| >= 3
    ensures Lat(caption + " " + lat + ", " + lon) == lat
    ensures Lon(caption + " " + lat + ", " + lon) == lon
  {
    var geo := caption + " " + lat + ", " + lon;
    var ws := [caption, lat + ",", lon];
    GeoWords(caption, lat, lon);
    assert Words(geo) == ws;
    assert |Words(geo)| >= 3;
    assert Words(geo)[1] == lat + ",";
    StripTrailingComma(lat);
    assert Lat(geo) == lat;
    assert Lon(geo) == lon;
  }

  lemma GeoWords(caption: String, lat: String, lon: String)
    requires IsWord(caption) && IsWord(lat) && IsWord(lon)
    ensures Words(caption + " " + lat + ", " + lon) == [caption, lat + ",", lon]
  {
    var ws := [caption, lat + ",", lon];
    GeoJoin(caption, lat, lon);
    assert IsWord(lat + ",") by {
      assert forall i :: 0 <= i < |lat| ==> (lat + ",")[i] == lat[i];
    }
    WordsJoin(ws);
  }

  lemma GeoJoin(caption: String, lat: String, lon: String)
    ensures caption + " " + lat + ", " + lon == Join([caption, lat + ",", lon], " ")
  {
    var ws := [caption, lat + ",", lon];
    assert ws[1..][1..] == [lon];
    assert Join(ws[1..], " ") == lat + "," + " " + lon;
  }

  lemma StripTrailingComma(lat: String)
    requires |lat| > 0 && ',' !in lat
    ensures Strip(lat + ",", IsComma) == lat
  {
    var t := lat + ",";
    assert LStrip(t, IsComma) == t by {
      assert t[0] == lat[0];
    }
    assert RStrip(t, IsComma) == lat by {
      assert t[..|t| - 1] == lat;
      assert lat[|lat| - 1] in lat;
    }
  }

  /** A seven-span page: no description, so the description column is
      empty. */
  lemma SevenSpanLocation(raw: seq<String>, address: String, city: String, state: String,
                          caption: String, lat: String, lon: String)
    requires |raw| == 7
    requires StripSpans(raw)[3] == address
    requires StripSpans(raw)[4] == city + CitySep + state
    requires StripSpans(raw)[5] == caption + " " + lat + ", " + lon
    requires ',' !in city && ',' !in state && ',' !in lat
    requires IsWord(caption) && IsWord(lat) && IsWord(lon)
    ensures LocationParsable(raw)
    ensures LocationFields(raw) == [city, state, "", address, lat, lon]
    ensures ScrapeLocation(raw) == city + "," + state + ",," + address + "," + lat + "," + lon + ","
  {
    CityStateParts(city, state);
    GeoParts(caption, lat, lon);
    ScrapeLocationFields(raw);
    SevenColumns(city, state, address, lat, lon);
  }

  /** Any other span count: `spans[3]` replaces city and state. On an
      eight-span page that is the span just before the address, the
      description; on a six-span page it is the city/state span itself (see
      `SixSpanLocation`). */
  lemma OtherSpanLocation(raw: seq<String>, third: String, address: String, city: String,
                          state: String, caption: String, lat: String, lon: String)
    requires |raw| >= 4 && |raw| != 7
    requires StripSpans(raw)[3] == third
    requires StripSpans(raw)[|raw| - 4] == address
    requires StripSpans(raw)[|raw| - 3] == city + CitySep + state
    requires StripSpans(raw)[|raw| - 2] == caption + " " + lat + ", " + lon
    requires ',' !in city && ',' !in state && ',' !in lat
    requires IsWord(caption) && IsWord(lat) && IsWord(lon)
    ensures LocationParsable(raw)
    ensures LocationFields(raw) == [third, address, lat, lon]
    ensures ScrapeLocation(raw) == third + "," + address + "," + lat + "," + lon + ","
  {
    CityStateParts(city, state);
    GeoParts(caption, lat, lon);
    ScrapeLocationFields(raw);
    FourColumns(third, address, lat, lon);
  }

  /** A six-span page: `spans[3]` is `spans[-3]`, so line 93 writes the
      city/state span whole. It splits on ',' into six pieces, not seven:
      the city, the state after its leading space, address, lat, lon and
      the empty piece after the final ','. */
  lemma SixSpanLocation(raw: seq<String>, address: String, city: String, state: String,
                        caption: String, lat: String, lon: String)
    requires |raw| == 6
    requires StripSpans(raw)[2] == address
    requires StripSpans(raw)[3] == city + CitySep + state
    requires StripSpans(raw)[4] == caption + " " + lat + ", " + lon
    requires ',' !in city && ',' !in state && ',' !in lat
    requires IsWord(caption) && IsWord(lat) && IsWord(lon)
    ensures LocationParsable(raw)
    ensures LocationFields(raw) == [city + CitySep + state, address, lat, lon]
    ensures ScrapeLocation(raw) == city + ", " + state + "," + address + "," + lat + "," + lon + ","
    ensures ',' !in address && ',' !in lon
         ==> Split(ScrapeLocation(raw), ",") == [city, " " + state, address, lat, lon, ""]
  {
    CityStateParts(city, state);
    GeoParts(caption, lat, lon);
    ScrapeLocationFields(raw);
    FourColumns(city + CitySep + state, address, lat, lon);
    if ',' !in address && ',' !in lon {
      SixSpanColumns(city, state, address, lat, lon);
    }
  }

  lemma SixSpanColumns(city: String, state: String, address: String, lat: String, lon: String)
    requires ',' !in city && ',' !in state && ',' !in address && ',' !in lat && ',' !in lon
    ensures Split(Terminated([city + CitySep + state, address, lat, lon], ","), ",")
         == [city, " " + state, address, lat, lon, ""]
  {
    var rest := [address, lat, lon];
    assert [city + CitySep + state, address, lat, lon] == [city + CitySep + state] + rest;
    assert forall k :: 0 <= k < |rest| ==> ',' !in rest[k];
    SplitCityState(city, state, rest);
    assert [city, " " + state] + rest + [[]] == [city, " " + state, address, lat, lon, ""];
  }

  /** A "city, state" column splits on ',' into the city and the state
      after its leading space. */
  lemma SplitCityState(city: String, state: String, rest: seq<String>)
    requires ',' !in city && ',' !in state
    requires forall k :: 0 <= k < |rest| ==> ',' !in rest[k]
    ensures Split(Terminated([city + CitySep + state] + rest, ","), ",")
         == [city, " " + state] + rest + [[]]
  {
    CityStateTerminated(city, state, rest);
    CityStatePartsCommaFree(city, state, rest);
    TerminatedSplit([city, " " + state] + rest);
  }

  lemma CityStateTerminated(city: String, state: String, rest: seq<String>)
    ensures Terminated([city + CitySep + state] + rest, ",")
         == Terminated([city, " " + state] + rest, ",")
  {
    var st := " " + state;
    TerminatedCons(city + CitySep + state, rest, ",");
    TerminatedCons(st, rest, ",");
    TerminatedCons(city, [st] + rest, ",");
    assert [city] + ([st] + rest) == [city, st] + rest;
    CityStateRegroup(city, state, Terminated(rest, ","));
  }

  lemma CityStatePartsCommaFree(city: String, state: String, rest: seq<String>)
    requires ',' !in city && ',' !in state
    requires forall k :: 0 <= k < |rest| ==> ',' !in rest[k]
    ensures forall k :: 0 <= k < |[city, " " + state] + rest| ==> ',' !in ([city, " " + state] + rest)[k]
  {
    var parts := [city, " " + state] + rest;
    CommaFreeCons(' ', state);
    forall k | 0 <= k < |parts| ensures ',' !in parts[k] {
      if k >= 2 {
        assert parts[k] == rest[k - 2];
      } else if k == 1 {
        assert parts[k] == [' '] + state;
      }
    }
  }

  lemma CityStateRegroup(city: String, state: String, t: String)
    ensures city + CitySep + state + "," + t == city + "," + (" " + state + "," + t)
  {
    var c := city + ",";
    var st := " " + state;
    assert city + CitySep == c + " " by {
      assert CitySep == "," + " ";
      Assoc(city, ",", " ");
    }
    Assoc(c, " ", state);
    Assoc(c, st, ",");
    Assoc(c, st + ",", t);
  }

  lemma Assoc(a: String, b: String, c: String)
    ensures (a + b) + c == a + (b + c)
  {
  }

  lemma CommaFreeCons(c: char, s: String)
    requires c != ',' && ',' !in s
    ensures ',' !in [c] + s
  {
    assert forall i :: 1 <= i < |[c] + s| ==> ([c] + s)[i] == s[i - 1];
  }

  /** On a six-span page the first location column holds the ", " of the
      city/state span, so a six-span row never has comma-free columns. */
  lemma SixSpanFirstColumnComma(raw: seq<String>)
    requires LocationParsable(raw) && |raw| == 6
    ensures ',' in LocationFields(raw)[0]
  {
    var s := StripSpans(raw);
    assert |s| == 6;
    var c := s[3];
    assert Contains(c, CitySep);
    var i :| 0 <= i <= |c| && MatchAt(c, CitySep, i);
    assert c[i] == ',' by {
      assert c[i..i + 2][0] == c[i];
    }
    assert LocationFields(raw)[0] == c;
  }

  // ---------------------------------------------------------------------
  // soup_eater
  // ---------------------------------------------------------------------

  /** The parts of a parsed page that the parser looks at. */
  datatype Page = Page(h1s: seq<String>, h2s: seq<String>, spans: seq<String>)

  /** `soup_eater`: the header string followed by the location string. The
      `h2` list is stripped of its tags in the source but never used. */
  function SoupEater(page: Page): (r: String)
    requires HeaderParsable(page.h1s) && LocationParsable(page.spans)
    ensures |r| > 0 && r[|r| - 1] == ','
  {
    var data := ScrapeHeader(page.h1s);
    data + ScrapeLocation(page.spans)
  }

  /** The `h2` elements do not influence the row. */
  lemma SoupEaterIgnoresH2(page: Page, h2s: seq<String>)
    requires HeaderParsable(page.h1s) && LocationParsable(page.spans)
    ensures SoupEater(page.(h2s := h2s)) == SoupEater(page)
  {
  }

  /** The whole row for a seven-span page whose last heading starts with the
      date: eight comma-separated pieces, the description column empty. */
  lemma SoupEaterSevenSpanRow(page: Page, date: String, rest: String, address: String,
                              city: String, state: String, caption: String, lat: String, lon: String)
    requires |page.h1s| > 0 && page.h1s[|page.h1s| - 1] == H1Open + date + " " + rest + H1Close
    requires IsWord(date) && '<' !in date && '<' !in rest
    requires |page.spans| == 7
    requires StripSpans(page.spans)[3] == address
    requires StripSpans(page.spans)[4] == city + CitySep + state
    requires StripSpans(page.spans)[5] == caption + " " + lat + ", " + lon
    requires ',' !in city && ',' !in state && ',' !in lat && ',' !in lon
    requires ',' !in date && ',' !in address
    requires IsWord(caption) && IsWord(lat) && IsWord(lon)
    ensures HeaderParsable(page.h1s) && LocationParsable(page.spans)
    ensures SoupEater(page) == date + "," + city + "," + state + ",," + address + "," + lat + "," + lon + ","
    ensures Split(SoupEater(page), ",") == [date, city, state, "", address, lat, lon, ""]
  {
    var h1s := page.h1s[..|page.h1s| - 1];
    assert page.h1s == h1s + [H1Open + date + " " + rest + H1Close];
    ScrapeHeaderOfTitle(h1s, date, rest);
    SevenSpanLocation(page.spans, address, city, state, caption, lat, lon);
    assert SoupEater(page) == (date + ",") + ScrapeLocation(page.spans);
    RowOfSevenSpanPage(date, city, state, address, lat, lon);
  }

  lemma RowOfSevenSpanPage(date: String, city: String, state: String, address: String,
                            lat: String, lon: String)
    requires ',' !in date && ',' !in city && ',' !in state && ',' !in address
    requires ',' !in lat && ',' !in lon
    ensures (date + ",") + (city + "," + state + ",," + address + "," + lat + "," + lon + ",")
         == date + "," + city + "," + state + ",," + address + "," + lat + "," + lon + ","
    ensures Split(date + "," + city + "," + state + ",," + address + "," + lat + "," + lon + ",", ",")
         == [date, city, state, "", address, lat, lon, ""]
  {
    var fields := [date, city, state, "", address, lat, lon];
    var row := date + "," + city + "," + state + ",," + address + "," + lat + "," + lon + ",";
    RowTerminated(date, city, state, address, lat, lon);
    TerminatedSplit(fields);
    assert Split(row, ",") == fields + [[]];
    assert fields + [[]] == [date, city, state, "", address, lat, lon, ""];
  }

  lemma RowTerminated(date: String, city: String, state: String, address: String,
                      lat: String, lon: String)
    ensures (date + ",") + (city + "," + state + ",," + address + "," + lat + "," + lon + ",")
         == date + "," + city + "," + state + ",," + address + "," + lat + "," + lon + ","
    ensures date + "," + city + "," + state + ",," + address + "," + lat + "," + lon + ","
         == Terminated([date, city, state, "", address, lat, lon], ",")
  {
    SevenColumns(city, state, address, lat, lon);
    TerminatedCons(date, [city, state, "", address, lat, lon], ",");
    assert [date] + [city, state, "", address, lat, lon] == [date, city, state, "", address, lat, lon];
  }

  // ---------------------------------------------------------------------
  // The ID filter of main_controller
  // ---------------------------------------------------------------------

  /** `s[mask]` for the boolean mask `p(s)`: the elements satisfying `p`,
      in order. */
  function Keep(s: seq<int>, p: int -> bool): seq<int> {
    if |s| == 0 then [] else (if p(s[0]) then [s[0]] else []) + Keep(s[1..], p)
  }

  /** `ids = ids[ids >= lower]; ids = ids[ids <= upper]` */
  function FilterIds(ids: seq<int>, lower: int, upper: int): seq<int> {
    Keep(Keep(ids, x => x >= lower), x => x <= upper)
  }

  lemma {:induction false} KeepConcat(a: seq<int>, b: seq<int>, p: int -> bool)
    ensures Keep(a + b, p) == Keep(a, p) + Keep(b, p)
    decreases |a|
  {
    if |a| == 0 {
      assert a + b == b;
    } else {
      var h := if p(a[0]) then [a[0]] else [];
      assert Keep(a + b, p) == h + Keep(a[1..] + b, p) by {
        assert (a + b)[0] == a[0];
        assert (a + b)[1..] == a[1..] + b;
      }
      KeepConcat(a[1..], b, p);
      assert h + (Keep(a[1..], p) + Keep(b, p)) == (h + Keep(a[1..], p)) + Keep(b, p);
    }
  }

  /** The two masks act on each ID on its own. */
  lemma FilterIdsCons(x: int, ids: seq<int>, lower: int, upper: int)
    ensures FilterIds([x] + ids, lower, upper)
         == (if lower <= x <= upper then [x] else []) + FilterIds(ids, lower, upper)
  {
    var atLeast := (y: int) => y >= lower;
    var atMost := (y: int) => y <= upper;
    assert ([x] + ids)[1..] == ids;
    assert Keep([x] + ids, atLeast) == (if x >= lower then [x] else []) + Keep(ids, atLeast);
    KeepConcat(if x >= lower then [x] else [], Keep(ids, atLeast), atMost);
    if x >= lower {
      assert Keep([x], atMost) == if x <= upper then [x] else [];
    }
  }

  /** `a` is `b` with some elements left out, the rest in their order. */
  predicate IsSubsequence(a: seq<int>, b: seq<int>)
    decreases |b|
  {
    if |a| == 0 then true
    else if |b| == 0 then false
    else (a[0] == b[0] && IsSubsequence(a[1..], b[1..])) || IsSubsequence(a, b[1..])
  }

  /** The inclusive ID filter keeps exactly the IDs inside `[lower, upper]`,
      each as often as it occurs, in their original order. */
  lemma {:induction false} FilterIdsSpec(ids: seq<int>, lower: int, upper: int)
    ensures forall x :: x in FilterIds(ids, lower, upper) <==> x in ids && lower <= x <= upper
    ensures forall x :: multiset(FilterIds(ids, lower, upper))[x]
                     == if lower <= x <= upper then multiset(ids)[x] else 0
    ensures IsSubsequence(FilterIds(ids, lower, upper), ids)
    decreases |ids|
  {
    if |ids| > 0 {
      var x, rest := ids[0], ids[1..];
      assert ids == [x] + rest;
      FilterIdsCons(x, rest, lower, upper);
      FilterIdsSpec(rest, lower, upper);
      var r := FilterIds(ids, lower, upper);
      if lower <= x <= upper {
        assert r[1..] == FilterIds(rest, lower, upper);
      } else {
        var r' := FilterIds(rest, lower, upper);
        assert r == r';
        SubsequenceOfTail(r', x, rest);
      }
    }
  }

  lemma SubsequenceOfTail(a: seq<int>, x: int, b: seq<int>)
    requires IsSubsequence(a, b)
    ensures IsSubsequence(a, [x] + b)
  {
    assert ([x] + b)[1..] == b;
  }
}
