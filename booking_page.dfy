/** The availability grid of the booking page (frontend/js/booking.js): the
    twelve hourly slots, the hour normalisation that lines a booking's
    `time_slot` up with a slot cell, the grouping of resources into table
    sections, the marks a booking puts on a cell, and the date string the
    page sends to the server. */
module BookingPage {

  import opened Common
  import opened Text
  import opened Seqs

  // ---------------------------------------------------------------------------
  // The time pattern `(\d{1,2}):(\d{2})(am|pm)?`
  // ---------------------------------------------------------------------------

  /** The three capture groups of one match; `suffix` is "" when the optional
      group did not take part. */
  datatype TimeMatch = TimeMatch(hour: string, minutes: string, suffix: string)

  predicate WellFormed(m: TimeMatch) {
    && AllDigits(m.hour) && 1 <= |m.hour| <= 2
    && AllDigits(m.minutes) && |m.minutes| == 2
    && (m.suffix == "" || m.suffix == "am" || m.suffix == "pm")
  }

  /** The optional `(am|pm)` group, tried at the front of `rest`. */
  function Suffix(rest: string): (r: string)
    ensures r == "" || r == "am" || r == "pm"
    ensures r != "" ==> StartsWith(rest, r)
    ensures r == "" ==> !StartsWith(rest, "am") && !StartsWith(rest, "pm")
  {
    if StartsWith(rest, "am") then "am" else if StartsWith(rest, "pm") then "pm" else ""
  }

  /** The pattern anchored at position `i`: two hour digits if the second
      character is a digit, otherwise one (the greedy `\d{1,2}` gives back its
      second digit only when that digit is not there). */
  function MatchAt(s: string, i: nat): (r: Option<TimeMatch>)
    ensures r.Some? ==> WellFormed(r.value)
    ensures i + 4 > |s| ==> r.None?
  {
    if i + 5 <= |s| && IsDigit(s[i]) && IsDigit(s[i + 1]) && s[i + 2] == ':'
       && IsDigit(s[i + 3]) && IsDigit(s[i + 4]) then
      Some(TimeMatch(s[i..i + 2], s[i + 3..i + 5], Suffix(s[i + 5..])))
    else if i + 4 <= |s| && IsDigit(s[i]) && s[i + 1] == ':'
       && IsDigit(s[i + 2]) && IsDigit(s[i + 3]) then
      Some(TimeMatch(s[i..i + 1], s[i + 2..i + 4], Suffix(s[i + 4..])))
    else None
  }

  /** `s.match(...)` from position `i` on: the leftmost match. */
  function FindTime(s: string, i: nat): (r: Option<TimeMatch>)
    ensures r.Some? ==> WellFormed(r.value)
    decreases |s| - i
  {
    if i >= |s| then None
    else if MatchAt(s, i).Some? then MatchAt(s, i)
    else FindTime(s, i + 1)
  }

  /** FindTime finds nothing exactly when the pattern matches nowhere from
      `i` on, and otherwise the match at the leftmost position that has one. */
  lemma {:induction false} FindTimeLeftmost(s: string, i: nat)
    ensures FindTime(s, i).None? <==> forall j :: i <= j ==> MatchAt(s, j).None?
    ensures FindTime(s, i).Some? ==>
      exists j :: i <= j && MatchAt(s, j) == FindTime(s, i) && forall k :: i <= k < j ==> MatchAt(s, k).None?
    decreases |s| - i
  {
    if i < |s| && MatchAt(s, i).None? {
      FindTimeLeftmost(s, i + 1);
      if FindTime(s, i).Some? {
        var j :| i + 1 <= j && MatchAt(s, j) == FindTime(s, i + 1)
          && forall k :: i + 1 <= k < j ==> MatchAt(s, k).None?;
        assert forall k :: i <= k < j ==> MatchAt(s, k).None?;
      }
    } else if i < |s| {
      assert MatchAt(s, i) == FindTime(s, i);
    }
  }

  /** The 12-hour to 24-hour adjustment: pm adds twelve except at 12, and
      12am is hour zero. */
  function To24(h: nat, suffix: string): (r: nat)
    ensures 1 <= h <= 12 && (suffix == "am" || suffix == "pm") ==>
      r < 24 && r % 12 == h % 12 && (r >= 12 <==> suffix == "pm")
    ensures suffix != "am" && suffix != "pm" ==> r == h
  {
    if suffix == "pm" && h != 12 then h + 12
    else if suffix == "am" && h == 12 then 0
    else h
  }

  /** `${String(hh).padStart(2,'0')}:${mm}`. */
  function ClockOf(h: nat, mm: string): string {
    Pad2(h) + ":" + mm
  }

  /** The 24-hour text of a match. */
  function ClockText(m: TimeMatch): string
    requires WellFormed(m)
  {
    ClockOf(To24(DigitsValue(m.hour), m.suffix), m.minutes)
  }

  /** `normalizeCellTime`: the first time in the lowercased text as "HH:MM",
      or the text itself when it holds no time. */
  function NormalizeCellTime(cellTime: string): (r: string)
    ensures FindTime(Lower(cellTime), 0).None? ==> r == cellTime
  {
    var m := FindTime(Lower(cellTime), 0);
    if m.None? then cellTime else ClockText(m.value)
  }

  lemma LowerKeeps(s: string)
    requires forall i :: 0 <= i < |s| ==> !IsAsciiUpper(s[i])
    ensures Lower(s) == s
  {
  }

  /** Lowercasing leaves the digits and the colon of a clock text alone. */
  lemma {:induction false} LowerClock(hs: string, mm: string, tail: string)
    requires AllDigits(hs) && AllDigits(mm)
    ensures Lower(hs + ":" + mm + tail) == hs + ":" + mm + Lower(tail)
  {
    LowerAppend(hs + ":" + mm, tail);
    LowerKeeps(hs + ":" + mm);
  }

  /** A clock text `H:MM` or `HH:MM` at the front is the leftmost match, with
      the suffix read from what follows it. */
  lemma {:induction false} MatchClock(hs: string, mm: string, tail: string)
    requires AllDigits(hs) && 1 <= |hs| <= 2 && AllDigits(mm) && |mm| == 2
    ensures FindTime(hs + ":" + mm + tail, 0) == Some(TimeMatch(hs, mm, Suffix(tail)))
  {
    var s := hs + ":" + mm + tail;
    var n := |hs|;
    assert s[..n] == hs && s[n] == ':';
    assert s[n + 1..n + 3] == mm && s[n + 3..] == tail;
    assert IsDigit(s[0]) && IsDigit(s[n + 1]) && IsDigit(s[n + 2]);
    if n == 1 {
      assert !IsDigit(s[1]);
    }
    assert MatchAt(s, 0) == Some(TimeMatch(hs, mm, Suffix(tail)));
  }

  /** A time as the grid writes it: `h:MM` and a suffix. */
  function TwelveHourText(h: nat, mm: string, suffix: string): string {
    NatToString(h) + ":" + mm + suffix
  }

  /** A 12-hour time `h:MMam` or `h:MMpm` (either case) becomes its 24-hour
      "HH:MM" form. */
  lemma NormalizeTwelveHour(h: nat, mm: string, suffix: string)
    requires 1 <= h <= 12 && AllDigits(mm) && |mm| == 2
    requires Lower(suffix) == "am" || Lower(suffix) == "pm"
    ensures NormalizeCellTime(TwelveHourText(h, mm, suffix)) == ClockOf(To24(h, Lower(suffix)), mm)
  {
    var hs := NatToString(h);
    LowerClock(hs, mm, suffix);
    MatchClock(hs, mm, Lower(suffix));
    assert Suffix(Lower(suffix)) == Lower(suffix);
    NatToStringRoundTrip(h);
  }

  /** A 24-hour clock text is its own leftmost match and normalises to
      itself. */
  lemma ClockIsFixed(h: nat, mm: string)
    requires h < 100 && AllDigits(mm) && |mm| == 2
    ensures FindTime(Lower(ClockOf(h, mm)), 0) == Some(TimeMatch(Pad2(h), mm, ""))
    ensures ClockText(TimeMatch(Pad2(h), mm, "")) == ClockOf(h, mm)
  {
    assert ClockOf(h, mm) == Pad2(h) + ":" + mm + "";
    LowerClock(Pad2(h), mm, "");
    MatchClock(Pad2(h), mm, "");
  }

  /** The hour slots of the grid, as the page writes them. */
  const TimeSlots: seq<string> := ["10:00am", "11:00am", "12:00pm", "1:00pm", "2:00pm", "3:00pm",
                                   "4:00pm", "5:00pm", "6:00pm", "7:00pm", "8:00pm", "9:00pm"]

  /** The hour and suffix slot `k` is written with. */
  function SlotHour(k: nat): nat {
    if k <= 2 then 10 + k else k - 2
  }

  function SlotSuffix(k: nat): string {
    if k < 2 then "am" else "pm"
  }

  lemma SlotSpelling(k: nat)
    requires k < 12
    ensures TimeSlots[k] == TwelveHourText(SlotHour(k), "00", SlotSuffix(k))
  {
    if k < 4 {
      SlotSpellingMorning(k);
    } else if k < 8 {
      SlotSpellingAfternoon(k);
    } else {
      SlotSpellingEvening(k);
    }
  }

  lemma SlotSpellingMorning(k: nat)
    requires k <= 3
    ensures TimeSlots[k] == TwelveHourText(SlotHour(k), "00", SlotSuffix(k))
  {
    if k == 0 {
      assert NatToString(10) == "10";
      assert TimeSlots[0] == "10:00am" == "10" + ":" + "00" + "am";
    } else if k == 1 {
      assert NatToString(11) == "11";
      assert TimeSlots[1] == "11:00am" == "11" + ":" + "00" + "am";
    } else if k == 2 {
      assert NatToString(12) == "12";
      assert TimeSlots[2] == "12:00pm" == "12" + ":" + "00" + "pm";
    } else {
      assert NatToString(1) == "1";
      assert TimeSlots[3] == "1:00pm" == "1" + ":" + "00" + "pm";
    }
  }

  lemma SlotSpellingAfternoon(k: nat)
    requires 4 <= k <= 7
    ensures TimeSlots[k] == TwelveHourText(SlotHour(k), "00", SlotSuffix(k))
  {
    if k == 4 {
      assert NatToString(2) == "2";
      assert TimeSlots[4] == "2:00pm" == "2" + ":" + "00" + "pm";
    } else if k == 5 {
      assert NatToString(3) == "3";
      assert TimeSlots[5] == "3:00pm" == "3" + ":" + "00" + "pm";
    } else if k == 6 {
      assert NatToString(4) == "4";
      assert TimeSlots[6] == "4:00pm" == "4" + ":" + "00" + "pm";
    } else {
      assert NatToString(5) == "5";
      assert TimeSlots[7] == "5:00pm" == "5" + ":" + "00" + "pm";
    }
  }

  lemma SlotSpellingEvening(k: nat)
    requires 8 <= k <= 11
    ensures TimeSlots[k] == TwelveHourText(SlotHour(k), "00", SlotSuffix(k))
  {
    if k == 8 {
      assert NatToString(6) == "6";
      assert TimeSlots[8] == "6:00pm" == "6" + ":" + "00" + "pm";
    } else if k == 9 {
      assert NatToString(7) == "7";
      assert TimeSlots[9] == "7:00pm" == "7" + ":" + "00" + "pm";
    } else if k == 10 {
      assert NatToString(8) == "8";
      assert TimeSlots[10] == "8:00pm" == "8" + ":" + "00" + "pm";
    } else {
      assert NatToString(9) == "9";
      assert TimeSlots[11] == "9:00pm" == "9" + ":" + "00" + "pm";
    }
  }

  /** Slot `k` stands for hour `10 + k` of the 24-hour clock. */
  lemma SlotNormalise(k: nat)
    requires k < 12
    ensures NormalizeCellTime(TimeSlots[k]) == ClockOf(10 + k, "00")
  {
    SlotSpelling(k);
    AmPmLower(SlotSuffix(k));
    NormalizeTwelveHour(SlotHour(k), "00", SlotSuffix(k));
    assert To24(SlotHour(k), SlotSuffix(k)) == 10 + k;
  }

  /** The twelve slots normalise to the hours 10 to 21, "10:00" to "21:00". */
  lemma TimeSlotsNormalise()
    ensures |TimeSlots| == 12
    ensures forall k :: 0 <= k < |TimeSlots| ==> NormalizeCellTime(TimeSlots[k]) == ClockOf(10 + k, "00")
  {
    forall k | 0 <= k < |TimeSlots|
      ensures NormalizeCellTime(TimeSlots[k]) == ClockOf(10 + k, "00")
    {
      SlotNormalise(k);
    }
  }

  /** Normalising twice changes nothing, as long as the hour stays below 100. */
  lemma NormalizeIdempotent(cellTime: string)
    requires FindTime(Lower(cellTime), 0).Some? ==>
      var m := FindTime(Lower(cellTime), 0).value; To24(DigitsValue(m.hour), m.suffix) < 100
    ensures NormalizeCellTime(NormalizeCellTime(cellTime)) == NormalizeCellTime(cellTime)
  {
    var m := FindTime(Lower(cellTime), 0);
    if m.Some? {
      ClockIsFixed(To24(DigitsValue(m.value.hour), m.value.suffix), m.value.minutes);
    }
  }

  // ---------------------------------------------------------------------------
  // bookingMatchesCell
  // ---------------------------------------------------------------------------

  /** The trimmed slot up to its first '-' (all of it when there is none). */
  function StartPart(bookingSlot: string): (r: string)
    ensures '-' !in r
  {
    var bs := Trim(bookingSlot);
    var k := IndexOf(bs, '-');
    assert forall i :: 0 <= i < k ==> bs[..k][i] == bs[i];
    bs[..k]
  }

  /** `replace(/\s/g, '')`. */
  function StripSpaces(s: string): (r: string)
    ensures |r| <= |s|
    ensures forall i :: 0 <= i < |r| ==> !IsSpace(r[i])
  {
    if s == [] then []
    else (if IsSpace(s[0]) then [] else [s[0]]) + StripSpaces(s[1..])
  }

  /** `replace(/am|pm/, '')`: the leftmost "am" or "pm" removed. */
  function RemoveMeridiem(s: string): (r: string)
    ensures |r| == |s| || |r| + 2 == |s|
  {
    if |s| < 2 then s
    else if s[..2] == "am" || s[..2] == "pm" then s[2..]
    else [s[0]] + RemoveMeridiem(s[1..])
  }

  /** `startNorm`: the start normalised like a cell when it holds a time
      (the case-insensitive match reads like a match on the lowercased text),
      otherwise lowercased, without white space and without its first
      am/pm. */
  function StartNorm(start: string): string {
    var m := FindTime(Lower(start), 0);
    if m.Some? then ClockText(m.value) else RemoveMeridiem(StripSpaces(Lower(start)))
  }

  /** `bookingMatchesCell`. */
  predicate BookingMatchesCell(bookingSlot: string, cellTime: string) {
    StartNorm(StartPart(bookingSlot)) == NormalizeCellTime(cellTime)
  }

  /** Text holding a time is normalised the same way as a booking start and
      as a cell. */
  lemma StartNormLikeCell(x: string)
    requires FindTime(Lower(x), 0).Some?
    ensures StartNorm(x) == NormalizeCellTime(x)
  {
  }

  lemma {:induction false} TrimClean(p: string)
    requires p != [] && !IsSpace(p[0]) && !IsSpace(p[|p| - 1])
    ensures Trim(p) == p
  {
    assert TrimStart(p) == p;
    assert TrimEnd(p) == p;
  }

  /** The start of `p-rest` is `p`, when `p` has no '-' and does not begin
      with white space. */
  lemma {:induction false} StartPartOfRange(p: string, rest: string)
    requires '-' !in p && p != [] && !IsSpace(p[0])
    ensures StartPart(p + "-" + rest) == p
  {
    var x := p + "-" + rest;
    assert x[0] == p[0];
    assert TrimStart(x) == x;
    var bs := TrimEnd(x);
    assert bs == Trim(x);
    assert x[|p|] == '-' && !IsSpace('-');
    assert |bs| > |p|;
    assert bs[..|p|] == p && bs[|p|] == '-';
    var k := IndexOf(bs, '-');
    assert forall i :: 0 <= i < |p| ==> bs[i] == p[i] != '-';
    assert k == |p|;
  }

  /** The start of a clock text, alone or before '-', is the clock text. */
  lemma {:induction false} ClockStartPart(h: nat, mm: string, rest: string)
    requires h < 100 && AllDigits(mm) && |mm| == 2
    ensures StartPart(ClockOf(h, mm)) == ClockOf(h, mm)
    ensures StartPart(ClockOf(h, mm) + "-" + rest) == ClockOf(h, mm)
  {
    var p := ClockOf(h, mm);
    var hs := Pad2(h);
    assert p == hs + ":" + mm;
    assert forall i :: 0 <= i < |p| ==> IsDigit(p[i]) || p[i] == ':' by {
      assert forall i :: 0 <= i < |hs| ==> p[i] == hs[i];
      assert forall i :: |hs| < i < |p| ==> p[i] == mm[i - |hs| - 1];
    }
    TrimClean(p);
    assert IndexOf(p, '-') == |p|;
    StartPartOfRange(p, rest);
  }

  /** A clock text as a booking start normalises to itself. */
  lemma StartNormClock(h: nat, mm: string)
    requires h < 100 && AllDigits(mm) && |mm| == 2
    ensures StartNorm(ClockOf(h, mm)) == ClockOf(h, mm)
  {
    ClockIsFixed(h, mm);
  }

  /** A start "HH:MM" (alone or before '-') matches any cell that normalises
      to "HH:MM". */
  lemma ClockStartMatches(h: nat, mm: string, rest: string, cellTime: string)
    requires h < 100 && AllDigits(mm) && |mm| == 2
    requires NormalizeCellTime(cellTime) == ClockOf(h, mm)
    ensures BookingMatchesCell(ClockOf(h, mm), cellTime)
    ensures BookingMatchesCell(ClockOf(h, mm) + "-" + rest, cellTime)
  {
    StartNormClock(h, mm);
    ClockStartPart(h, mm, rest);
  }

  /** A booking whose start is slot `k`'s hour in 24-hour form ("10:00" or
      "10:00-11:00") matches slot `k` ("10:00am"). */
  lemma ClockStartMatchesSlot(k: nat, rest: string)
    requires k < 12
    ensures BookingMatchesCell(ClockOf(10 + k, "00"), TimeSlots[k])
    ensures BookingMatchesCell(ClockOf(10 + k, "00") + "-" + rest, TimeSlots[k])
  {
    SlotNormalise(k);
    ClockStartMatches(10 + k, "00", rest, TimeSlots[k]);
  }

  lemma SpelledTextMatches(h: nat, suffix: string, rest: string)
    requires 1 <= h <= 12 && (suffix == "am" || suffix == "pm")
    ensures BookingMatchesCell(TwelveHourText(h, "00", suffix) + "-" + rest, TwelveHourText(h, "00", suffix))
  {
    var hs := NatToString(h);
    var x := TwelveHourText(h, "00", suffix);
    TwelveHourShape(h, suffix);
    StartPartOfRange(x, rest);
    LowerClock(hs, "00", suffix);
    AmPmLower(suffix);
    MatchClock(hs, "00", suffix);
    StartNormLikeCell(x);
  }

  /** A 12-hour text has no '-' and begins with a digit. */
  lemma TwelveHourShape(h: nat, suffix: string)
    requires suffix == "am" || suffix == "pm"
    ensures var x := TwelveHourText(h, "00", suffix); '-' !in x && IsDigit(x[0])
  {
    var hs := NatToString(h);
    var x := TwelveHourText(h, "00", suffix);
    assert x == hs + ":" + "00" + suffix;
    assert forall i :: 0 <= i < |hs| ==> x[i] == hs[i];
    assert forall i :: |hs| + 3 <= i < |x| ==> x[i] == suffix[i - |hs| - 3];
  }

  lemma AmPmLower(suffix: string)
    requires suffix == "am" || suffix == "pm"
    ensures Lower(suffix) == suffix
  {
    LowerKeeps(suffix);
  }

  /** A booking written with a slot's own text matches that slot. */
  lemma SlotTextMatchesSlot(k: nat, rest: string)
    requires k < 12
    ensures BookingMatchesCell(TimeSlots[k] + "-" + rest, TimeSlots[k])
  {
    SlotSpelling(k);
    SpelledTextMatches(SlotHour(k), SlotSuffix(k), rest);
  }

  /** A booking marks at most one slot of a row: the slots normalise to
      distinct hours. */
  lemma MatchesAtMostOneSlot(bookingSlot: string, j: nat, k: nat)
    requires j < 12 && k < 12
    requires BookingMatchesCell(bookingSlot, TimeSlots[j]) && BookingMatchesCell(bookingSlot, TimeSlots[k])
    ensures j == k
  {
    SlotsNormaliseApart(j, k);
  }

  lemma SlotsNormaliseApart(j: nat, k: nat)
    requires j < 12 && k < 12
    requires NormalizeCellTime(TimeSlots[j]) == NormalizeCellTime(TimeSlots[k])
    ensures j == k
  {
    SlotHour24(j);
    SlotHour24(k);
  }

  /** The hour a "HH:MM" text starts with. */
  function ClockHour(s: string): int {
    if |s| >= 2 && AllDigits(s[..2]) then DigitsValue(s[..2]) else -1
  }

  /** Slot `k` normalises to a text whose hour is `10 + k`. */
  lemma SlotHour24(k: nat)
    requires k < 12
    ensures ClockHour(NormalizeCellTime(TimeSlots[k])) == 10 + k
  {
    SlotNormalise(k);
    ClockHourOf(10 + k, "00");
  }

  lemma ClockHourOf(h: nat, mm: string)
    requires h < 100
    ensures ClockHour(ClockOf(h, mm)) == h
  {
    assert ClockOf(h, mm)[..2] == Pad2(h);
  }

  // ---------------------------------------------------------------------------
  // Grouping and the rendered rows
  // ---------------------------------------------------------------------------

  /** A resource as the page reads it; an absent or empty `type` or
      `category` is "". */
  datatype ResourceView = ResourceView(name: string, kind: string, category: string)

  datatype Group = StudyRooms | Equipment | Other

  /** `(r.type || r.category || 'other').toLowerCase()`. */
  function TypeText(r: ResourceView): string {
    Lower(if r.kind != "" then r.kind else if r.category != "" then r.category else "other")
  }

  /** The grouping key: "room" wins over the equipment words. */
  function GroupKey(r: ResourceView): (g: Group)
    ensures g == StudyRooms <==> Contains(TypeText(r), "room")
    ensures g == Equipment <==>
      !Contains(TypeText(r), "room")
      && (Contains(TypeText(r), "computer") || Contains(TypeText(r), "work") || Contains(TypeText(r), "equipment"))
  {
    var t := TypeText(r);
    if Contains(t, "room") then StudyRooms
    else if Contains(t, "computer") || Contains(t, "work") || Contains(t, "equipment") then Equipment
    else Other
  }

  /** A resource with neither type nor category is in the "other" group. */
  lemma UntypedIsOther(name: string)
    ensures GroupKey(ResourceView(name, "", "")) == Other
  {
    var t := TypeText(ResourceView(name, "", ""));
    assert t == "other";
    NotContainsFirst(t, "room");
    NotContainsFirst(t, "work");
    NotContainsFirst(t, "computer");
    NotContainsFirst(t, "equipment");
  }

  function InGroup(g: Group): ResourceView -> bool {
    HasKey(GroupKey, g)
  }

  /** The grouping loop: each resource is pushed onto its key's list, which
      is created on first use. */
  method GroupResources(resources: seq<ResourceView>) returns (groups: map<Group, seq<ResourceView>>)
    ensures forall g :: g in groups <==> Filter(resources, InGroup(g)) != []
    ensures forall g :: g in groups ==> groups[g] == Filter(resources, InGroup(g))
    ensures GroupsOf(groups, resources)
  {
    groups := map[];
    var i := 0;
    while i < |resources|
      invariant 0 <= i <= |resources|
      invariant GroupsOf(groups, resources[..i])
    {
      var r := resources[i];
      assert resources[..i + 1] == resources[..i] + [r];
      GroupedBySnoc(groups, resources[..i], r, GroupKey);
      var key := GroupKey(r);
      var before := if key in groups then groups[key] else [];
      groups := groups[key := before + [r]];
      i := i + 1;
    }
    assert resources[..i] == resources;
  }

  /** `groups` holds, for each group with members in `s`, exactly those
      members in order, and no key for an empty group. */
  ghost predicate GroupsOf(groups: map<Group, seq<ResourceView>>, s: seq<ResourceView>) {
    GroupedBy(groups, s, GroupKey)
  }

  /** Every resource is in exactly one group. */
  lemma {:induction false} GroupsPartition(resources: seq<ResourceView>)
    ensures |Filter(resources, InGroup(StudyRooms))| + |Filter(resources, InGroup(Equipment))|
          + |Filter(resources, InGroup(Other))| == |resources|
  {
    if resources != [] {
      GroupsPartition(resources[1..]);
      var r := resources[0];
      assert InGroup(StudyRooms)(r) <==> GroupKey(r) == StudyRooms;
      assert InGroup(Equipment)(r) <==> GroupKey(r) == Equipment;
      assert InGroup(Other)(r) <==> GroupKey(r) == Other;
    }
  }

  /** The header class `renderGroup` is called with, per group. */
  function HeaderClass(g: Group): string {
    match g
    case StudyRooms => "study-rooms-header"
    case Equipment => "equipment-header"
    case Other => "other-header"
  }

  /** The row class: only the study-room header gives study-room rows; the
      "other" group's rows are dressed as equipment. */
  function RowClass(header: string): (c: string)
    ensures c == "study-room-row" <==> header == "study-rooms-header"
    ensures c != "study-room-row" ==> c == "equipment-row"
  {
    if header == "study-rooms-header" then "study-room-row" else "equipment-row"
  }

  /** The `data-category` attribute, decided by the same test: it follows
      the row class. */
  function RowCategory(header: string): (c: string)
    ensures c == "study-rooms" <==> header == "study-rooms-header"
    ensures c != "study-rooms" ==> c == "equipment"
  {
    if RowClass(header) == "study-room-row" then "study-rooms" else "equipment"
  }

  /** The marks a slot cell carries (its class list, `time-slot` aside). */
  datatype SlotMark = Available | YourBooking | Unavailable

  datatype Cell = Cell(time: string, marks: set<SlotMark>)

  /** The slot cells of a fresh row: one per slot, in order, all available. */
  function FreshRow(): (cells: seq<Cell>)
    ensures |cells| == |TimeSlots| == 12
    ensures forall k :: 0 <= k < |cells| ==> cells[k].time == TimeSlots[k] && cells[k].marks == {Available}
  {
    seq(|TimeSlots|, k requires 0 <= k < |TimeSlots| => Cell(TimeSlots[k], {Available}))
  }

  datatype RowView = RowView(resource: ResourceView, rowClass: string, category: string, cells: seq<Cell>)

  /** `renderGroup`: one row per item, nothing for an empty group. */
  function RenderGroup(header: string, items: seq<ResourceView>): (rows: seq<RowView>)
    ensures |rows| == |items|
    ensures forall i :: 0 <= i < |rows| ==>
      rows[i] == RowView(items[i], RowClass(header), RowCategory(header), FreshRow())
  {
    seq(|items|, i requires 0 <= i < |items| => RowView(items[i], RowClass(header), RowCategory(header), FreshRow()))
  }

  function GroupItems(groups: map<Group, seq<ResourceView>>, g: Group): seq<ResourceView> {
    if g in groups then groups[g] else []
  }

  /** The table body: study rooms, then equipment, then the rest. */
  function RenderTable(groups: map<Group, seq<ResourceView>>): seq<RowView> {
    RenderGroup(HeaderClass(StudyRooms), GroupItems(groups, StudyRooms))
      + RenderGroup(HeaderClass(Equipment), GroupItems(groups, Equipment))
      + RenderGroup(HeaderClass(Other), GroupItems(groups, Other))
  }

  /** The rows of group `g` as rendered from the grouped resources. */
  function GroupRowsOf(resources: seq<ResourceView>, g: Group): seq<RowView> {
    RenderGroup(HeaderClass(g), Filter(resources, InGroup(g)))
  }

  /** A rendered row shows one of the resources with the twelve available
      slots, dressed as a study room exactly when it is keyed as one. */
  predicate ShownRow(row: RowView, resources: seq<ResourceView>) {
    && row.resource in resources && row.cells == FreshRow()
    && (row.rowClass == "study-room-row" <==> GroupKey(row.resource) == StudyRooms)
  }

  /** The rows of one rendered group: each a member of the group. */
  lemma {:induction false} GroupRows(resources: seq<ResourceView>, g: Group)
    ensures forall row :: row in GroupRowsOf(resources, g) ==>
      ShownRow(row, resources) && GroupKey(row.resource) == g
  {
    var items := Filter(resources, InGroup(g));
    var rows := GroupRowsOf(resources, g);
    forall row | row in rows
      ensures ShownRow(row, resources) && GroupKey(row.resource) == g
    {
      var i :| 0 <= i < |rows| && rows[i] == row;
      assert row.resource == items[i] && items[i] in items;
    }
  }

  /** For a grouping of the resources, a group's items are its filter
      (empty for a group that is absent). */
  lemma GroupItemsOf(resources: seq<ResourceView>, groups: map<Group, seq<ResourceView>>, g: Group)
    requires GroupsOf(groups, resources)
    ensures GroupItems(groups, g) == Filter(resources, InGroup(g))
  {
    var f := Filter(resources, InGroup(g));
    if g in groups {
      assert groups[g] == f;
    } else {
      assert f == [];
    }
  }

  /** Rendering the grouped resources shows every resource once, each row as
      ShownRow says. */
  lemma RenderTableRows(resources: seq<ResourceView>, groups: map<Group, seq<ResourceView>>)
    requires GroupsOf(groups, resources)
    ensures |RenderTable(groups)| == |resources|
    ensures forall row :: row in RenderTable(groups) ==> ShownRow(row, resources)
  {
    var a := GroupRowsOf(resources, StudyRooms);
    var b := GroupRowsOf(resources, Equipment);
    var c := GroupRowsOf(resources, Other);
    GroupItemsOf(resources, groups, StudyRooms);
    GroupItemsOf(resources, groups, Equipment);
    GroupItemsOf(resources, groups, Other);
    assert RenderTable(groups) == a + b + c;
    GroupsPartition(resources);
    GroupRows(resources, StudyRooms);
    GroupRows(resources, Equipment);
    GroupRows(resources, Other);
    forall row | row in a + b + c
      ensures ShownRow(row, resources)
    {
      assert row in a || row in b || row in c;
    }
  }

  // ---------------------------------------------------------------------------
  // Marking booked slots
  // ---------------------------------------------------------------------------

  /** A booking as the page receives it: an absent name or status is "", and
      an absent `time_slot` is None. */
  datatype ShownBooking = ShownBooking(resourceName: string, timeSlot: Option<string>, status: string)

  /** The mark a matched slot gets: "approved" in any letter case shows as
      the user's booking, any other status as unavailable. */
  function SlotMarkFor(status: string): (m: SlotMark)
    ensures m == YourBooking <==> Lower(status) == "approved"
    ensures m != Available
  {
    if Lower(status) == "approved" then YourBooking else Unavailable
  }

  lemma ApprovedInAnyCase()
    ensures SlotMarkFor("Approved") == YourBooking && SlotMarkFor("APPROVED") == YourBooking
    ensures SlotMarkFor("pending") == Unavailable && SlotMarkFor("") == Unavailable
  {
    assert Lower("Approved") == "approved";
    assert Lower("APPROVED") == "approved";
    assert Lower("pending") != "approved";
    assert Lower("") != "approved";
  }

  /** Whether booking `b` marks a cell with data-time `t` (cells without a
      time are skipped). A booking without a slot marks nothing: it never
      reaches a cell (see Processed). */
  predicate Hit(b: ShownBooking, t: string) {
    t != "" && b.timeSlot.Some? && BookingMatchesCell(b.timeSlot.value, t)
  }

  /** The bookings that `hit` puts on a cell with data-time `t`. */
  function HitsAt(hit: (ShownBooking, string) -> bool, t: string): ShownBooking -> bool {
    (b: ShownBooking) => hit(b, t)
  }

  /** One booking applied to one cell: a hit cell loses `available` and
      gains the booking's mark. */
  function MarkCell(c: Cell, b: ShownBooking, hit: (ShownBooking, string) -> bool): Cell {
    if hit(b, c.time) then Cell(c.time, c.marks - {Available} + {SlotMarkFor(b.status)}) else c
  }

  function MarkRow(cells: seq<Cell>, b: ShownBooking, hit: (ShownBooking, string) -> bool): seq<Cell> {
    seq(|cells|, k requires 0 <= k < |cells| => MarkCell(cells[k], b, hit))
  }

  /** The bookings of one row applied in order. */
  function MarkAll(cells: seq<Cell>, bs: seq<ShownBooking>, hit: (ShownBooking, string) -> bool): (r: seq<Cell>)
    ensures |r| == |cells|
    ensures forall k :: 0 <= k < |r| ==> r[k].time == cells[k].time
    decreases |bs|
  {
    if bs == [] then cells else MarkAll(MarkRow(cells, bs[0], hit), bs[1..], hit)
  }

  /** The marks a sequence of bookings brings. */
  function MarksOf(bs: seq<ShownBooking>): (r: set<SlotMark>)
    ensures Available !in r
    ensures bs != [] ==> r != {}
  {
    if bs == [] then {} else {SlotMarkFor(bs[0].status)} + MarksOf(bs[1..])
  }

  lemma {:induction false} MarksOfMeaning(bs: seq<ShownBooking>, m: SlotMark)
    ensures m in MarksOf(bs) <==> exists b :: b in bs && SlotMarkFor(b.status) == m
  {
    if bs != [] {
      MarksOfMeaning(bs[1..], m);
      assert forall b :: b in bs <==> b == bs[0] || b in bs[1..];
    }
  }

  /** The bookings applied to one cell in order. */
  function MarkCellAll(c: Cell, bs: seq<ShownBooking>, hit: (ShownBooking, string) -> bool): (r: Cell)
    ensures r.time == c.time
    decreases |bs|
  {
    if bs == [] then c else MarkCellAll(MarkCell(c, bs[0], hit), bs[1..], hit)
  }

  /** Applying the bookings row by row is applying them cell by cell. */
  lemma {:induction false} MarkAllCellwise(cells: seq<Cell>, bs: seq<ShownBooking>, k: nat,
                                           hit: (ShownBooking, string) -> bool)
    requires k < |cells|
    decreases |bs|
    ensures MarkAll(cells, bs, hit)[k] == MarkCellAll(cells[k], bs, hit)
  {
    if bs != [] {
      MarkAllCellwise(MarkRow(cells, bs[0], hit), bs[1..], k, hit);
    }
  }

  /** After the bookings are applied, a cell that no booking hits is
      unchanged, and one that some booking hits has lost `available` and
      carries the marks of exactly the bookings that hit it. */
  lemma {:induction false} MarkCellAllMeaning(c: Cell, bs: seq<ShownBooking>, hit: (ShownBooking, string) -> bool)
    decreases |bs|
    ensures var hits := Filter(bs, HitsAt(hit, c.time));
      MarkCellAll(c, bs, hit).marks
        == if hits == [] then c.marks else c.marks - {Available} + MarksOf(hits)
  {
    if bs != [] {
      var h := HitsAt(hit, c.time);
      var next := MarkCell(c, bs[0], hit);
      MarkCellFront(c, bs, hit);
      MarkCellAllMeaning(next, bs[1..], hit);
      FilterCons(bs, h);
      var rest := Filter(bs[1..], h);
      var final := MarkCellAll(next, bs[1..], hit).marks;
      assert HitsAt(hit, next.time) == h;
      assert final == if rest == [] then next.marks else next.marks - {Available} + MarksOf(rest);
      if hit(bs[0], c.time) {
        assert Filter(bs, h) == [bs[0]] + rest;
        MarksOfFront(bs[0], rest);
        MarkedSetStep(c.marks, SlotMarkFor(bs[0].status), MarksOf(rest), rest == [], final);
      } else {
        assert Filter(bs, h) == rest;
      }
    }
  }

  /** MarkCellAll unfolded once: the first booking's effect on the cell. */
  lemma MarkCellFront(c: Cell, bs: seq<ShownBooking>, hit: (ShownBooking, string) -> bool)
    requires bs != []
    ensures MarkCellAll(c, bs, hit) == MarkCellAll(MarkCell(c, bs[0], hit), bs[1..], hit)
    ensures MarkCell(c, bs[0], hit).time == c.time
    ensures hit(bs[0], c.time) ==> MarkCell(c, bs[0], hit).marks == c.marks - {Available} + {SlotMarkFor(bs[0].status)}
    ensures !hit(bs[0], c.time) ==> MarkCell(c, bs[0], hit) == c
  {
  }

  lemma MarksOfFront(b: ShownBooking, rest: seq<ShownBooking>)
    ensures MarksOf([b] + rest) == {SlotMarkFor(b.status)} + MarksOf(rest)
  {
    assert ([b] + rest)[1..] == rest;
  }

  /** The set algebra of one hit: `available` is removed once and the marks
      accumulate. */
  lemma MarkedSetStep(marks: set<SlotMark>, m0: SlotMark, more: set<SlotMark>, none: bool, final: set<SlotMark>)
    requires m0 != Available && Available !in more && (none ==> more == {})
    requires final == if none then marks - {Available} + {m0} else (marks - {Available} + {m0}) - {Available} + more
    ensures final == marks - {Available} + ({m0} + more)
  {
  }

  /** The row form of MarkCellAllMeaning. */
  lemma MarkAllMeaning(cells: seq<Cell>, bs: seq<ShownBooking>, k: nat, hit: (ShownBooking, string) -> bool)
    requires k < |cells|
    ensures var hits := Filter(bs, HitsAt(hit, cells[k].time));
      MarkAll(cells, bs, hit)[k].marks
        == if hits == [] then cells[k].marks else cells[k].marks - {Available} + MarksOf(hits)
  {
    MarkAllCellwise(cells, bs, k, hit);
    MarkCellAllMeaning(cells[k], bs, hit);
  }

  /** For a cell that starts out available the marks say exactly which
      bookings hit it: it stays available when none does, and it carries a
      mark exactly when a booking with that mark hits it. */
  lemma ClearedCellMarks(cells: seq<Cell>, bs: seq<ShownBooking>, k: nat, hit: (ShownBooking, string) -> bool)
    requires k < |cells| && cells[k].marks == {Available}
    ensures var m := MarkAll(cells, bs, hit)[k].marks;
      && (Available in m <==> forall b :: b in bs ==> !hit(b, cells[k].time))
      && (YourBooking in m <==> exists b :: b in bs && hit(b, cells[k].time) && SlotMarkFor(b.status) == YourBooking)
      && (Unavailable in m <==> exists b :: b in bs && hit(b, cells[k].time) && SlotMarkFor(b.status) == Unavailable)
  {
    var t := cells[k].time;
    MarkAllMeaning(cells, bs, k, hit);
    var hits := Filter(bs, HitsAt(hit, t));
    assert forall b :: b in hits <==> b in bs && hit(b, t);
    MarksOfMeaning(hits, YourBooking);
    MarksOfMeaning(hits, Unavailable);
    assert hits == [] <==> forall b :: b in bs ==> !hit(b, t) by {
      if hits != [] {
        assert hits[0] in hits;
      }
    }
  }

  /** Against a cleared row: slot `k` stays available exactly when no booking
      hits it, shows the user's booking exactly when an approved booking hits
      it, and shows unavailable exactly when a booking of any other status
      does. */
  lemma FreshRowMarks(bs: seq<ShownBooking>, k: nat)
    requires k < 12
    ensures var m := MarkAll(FreshRow(), bs, Hit)[k].marks;
      && (Available in m <==> forall b :: b in bs ==> !Hit(b, TimeSlots[k]))
      && (YourBooking in m <==> exists b :: b in bs && Hit(b, TimeSlots[k]) && Lower(b.status) == "approved")
      && (Unavailable in m <==> exists b :: b in bs && Hit(b, TimeSlots[k]) && Lower(b.status) != "approved")
  {
    ClearedCellMarks(FreshRow(), bs, k, Hit);
  }

  /** The first text that contains `key`. */
  function FirstContaining(texts: seq<string>, key: string): (r: Option<nat>)
    ensures r.None? <==> forall i :: 0 <= i < |texts| ==> !Contains(texts[i], key)
    ensures r.Some? ==>
      r.value < |texts| && Contains(texts[r.value], key)
      && forall i :: 0 <= i < r.value ==> !Contains(texts[i], key)
  {
    if texts == [] then None
    else if Contains(texts[0], key) then Some(0)
    else
      var rest := FirstContaining(texts[1..], key);
      assert forall i :: 1 <= i < |texts| ==> texts[1..][i - 1] == texts[i];
      if rest.None? then None else Some(rest.value + 1)
  }

  /** `rows.find(...)` as written: the first row whose name text contains the
      trimmed resource name. */
  function RowByText(texts: seq<string>, name: string): (r: Option<nat>)
    ensures r.None? <==> forall i :: 0 <= i < |texts| ==> !Contains(texts[i], Trim(name))
    ensures r.Some? ==>
      r.value < |texts| && Contains(texts[r.value], Trim(name))
      && forall i :: 0 <= i < r.value ==> !Contains(texts[i], Trim(name))
  {
    FirstContaining(texts, Trim(name))
  }

  /** A booking for "Room 1" lands on the "Room 10" row when that row comes
      first. */
  lemma RowByTextPicksLongerName()
    ensures RowByText(["Room 10", "Room 1"], "Room 1") == Some(0)
  {
    assert Trim("Room 1") == "Room 1" by { TrimClean("Room 1"); }
    assert StartsWith("Room 10", "Room 1");
  }

  /** The row lookup by the resource's own name: the first row whose name is
      the trimmed resource name. */
  function RowByName(names: seq<string>, name: string): (r: Option<nat>)
    ensures r.None? <==> forall i :: 0 <= i < |names| ==> names[i] != Trim(name)
    ensures r.Some? ==>
      r.value < |names| && names[r.value] == Trim(name)
      && forall i :: 0 <= i < r.value ==> names[i] != Trim(name)
  {
    FirstEqual(names, Trim(name))
  }

  /** The first position that holds `key`. */
  function FirstEqual(names: seq<string>, key: string): (r: Option<nat>)
    ensures r.None? <==> forall i :: 0 <= i < |names| ==> names[i] != key
    ensures r.Some? ==>
      r.value < |names| && names[r.value] == key
      && forall i :: 0 <= i < r.value ==> names[i] != key
  {
    if names == [] then None
    else if names[0] == key then Some(0)
    else
      var rest := FirstEqual(names[1..], key);
      assert forall i :: 1 <= i < |names| ==> names[1..][i - 1] == names[i];
      if rest.None? then None else Some(rest.value + 1)
  }

  /** With distinct row names, a booking goes to the row of its own resource. */
  lemma RowByNameIsOwnRow(names: seq<string>, name: string, i: nat)
    requires forall a, b :: 0 <= a < b < |names| ==> names[a] != names[b]
    requires i < |names| && names[i] == Trim(name)
    ensures RowByName(names, name) == Some(i)
  {
  }

  /** The bookings a row lookup sends to row `i`. */
  function OnRow(lookup: (seq<string>, string) -> Option<nat>, names: seq<string>, i: nat): ShownBooking -> bool {
    (b: ShownBooking) => lookup(names, b.resourceName) == Some(i)
  }

  /** Booking `b` makes `renderBookings` throw: its row is found, and the
      first slot cell then calls `trim()` on its absent `time_slot`. */
  predicate Throws(lookup: (seq<string>, string) -> Option<nat>, names: seq<string>, b: ShownBooking) {
    lookup(names, b.resourceName).Some? && b.timeSlot.None?
  }

  /** The bookings `renderBookings` applies before it throws: the longest
      prefix with no throwing booking. The exception leaves the `forEach`, so
      the throwing booking and every later one are never applied, and the
      caller only logs it. */
  function Processed(lookup: (seq<string>, string) -> Option<nat>, names: seq<string>, bs: seq<ShownBooking>)
    : (p: seq<ShownBooking>)
    ensures p <= bs
    ensures forall b :: b in p ==> !Throws(lookup, names, b)
    ensures |p| < |bs| ==> Throws(lookup, names, bs[|p|])
  {
    if bs == [] then []
    else if Throws(lookup, names, bs[0]) then []
    else [bs[0]] + Processed(lookup, names, bs[1..])
  }

  /** Cutting the bookings at a throwing one does not change what is
      applied. */
  lemma {:induction false} ProcessedCut(lookup: (seq<string>, string) -> Option<nat>, names: seq<string>,
                                        bs: seq<ShownBooking>, j: nat)
    requires j < |bs| && Throws(lookup, names, bs[j])
    ensures Processed(lookup, names, bs) == Processed(lookup, names, bs[..j])
  {
    if j > 0 && !Throws(lookup, names, bs[0]) {
      assert bs[1..][..j - 1] == bs[..j][1..];
      ProcessedCut(lookup, names, bs[1..], j - 1);
    }
  }

  /** `renderBookings` after `clearBookingMarks`, for a given row lookup:
      every row cleared, then each row's bookings applied, up to the first
      one that throws. */
  function RenderBookingsWith(lookup: (seq<string>, string) -> Option<nat>, names: seq<string>, bs: seq<ShownBooking>)
    : (grid: seq<seq<Cell>>)
    ensures |grid| == |names|
    ensures forall i :: 0 <= i < |grid| ==> |grid[i]| == 12
  {
    var applied := Processed(lookup, names, bs);
    seq(|names|, i requires 0 <= i < |names| => MarkAll(FreshRow(), Filter(applied, OnRow(lookup, names, i)), Hit))
  }

  /** Cell `k` of row `i` shows the user's booking exactly when an approved
      applied booking the lookup sends to row `i` hits slot `k`, and stays
      available exactly when no applied booking sent there does. */
  lemma RenderBookingsWithMeaning(lookup: (seq<string>, string) -> Option<nat>, names: seq<string>,
                                  bs: seq<ShownBooking>, i: nat, k: nat)
    requires i < |names| && k < 12
    ensures var m := RenderBookingsWith(lookup, names, bs)[i][k].marks;
      && (Available in m <==>
            forall b :: b in Processed(lookup, names, bs) && lookup(names, b.resourceName) == Some(i)
              ==> !Hit(b, TimeSlots[k]))
      && (YourBooking in m <==>
            exists b :: b in Processed(lookup, names, bs) && lookup(names, b.resourceName) == Some(i)
              && Hit(b, TimeSlots[k]) && Lower(b.status) == "approved")
  {
    var row := Filter(Processed(lookup, names, bs), OnRow(lookup, names, i));
    FreshRowMarks(row, k);
  }

  /** A booking with no slot whose row is found leaves the grid as if it and
      every later booking had never been sent. */
  lemma MissingSlotEndsMarking(lookup: (seq<string>, string) -> Option<nat>, names: seq<string>,
                               bs: seq<ShownBooking>, j: nat)
    requires j < |bs| && bs[j].timeSlot.None? && lookup(names, bs[j].resourceName).Some?
    ensures RenderBookingsWith(lookup, names, bs) == RenderBookingsWith(lookup, names, bs[..j])
  {
    ProcessedCut(lookup, names, bs, j);
  }

  /** The text of a row's `.resource-name` cell: the icon (the first two
      characters of `type`, upper-cased), a space, then the name. */
  function NameText(r: ResourceView): (t: string)
    ensures |t| == (if |r.kind| < 2 then |r.kind| else 2) + 1 + |r.name|
    ensures t[|t| - |r.name|..] == r.name
  {
    Upper(if |r.kind| < 2 then r.kind else r.kind[..2]) + " " + r.name
  }

  /** The texts `renderBookings` searches: the name cells of the resource
      rows, in table order (the group header rows have none). */
  function PageTexts(rows: seq<RowView>): (ts: seq<string>)
    ensures |ts| == |rows|
    ensures forall i :: 0 <= i < |rows| ==> ts[i] == NameText(rows[i].resource)
  {
    seq(|rows|, i requires 0 <= i < |rows| => NameText(rows[i].resource))
  }

  /** The resource names of the rows, in table order. */
  function RowNames(rows: seq<RowView>): (ns: seq<string>)
    ensures |ns| == |rows|
    ensures forall i :: 0 <= i < |rows| ==> ns[i] == rows[i].resource.name
  {
    seq(|rows|, i requires 0 <= i < |rows| => rows[i].resource.name)
  }

  /** As written, a booking for a resource on the page always finds a row:
      its own row, or one before it, since the own row's text contains the
      name. */
  lemma RowByTextFindsOwnOrEarlier(rows: seq<RowView>, name: string, i: nat)
    requires i < |rows| && rows[i].resource.name == Trim(name)
    ensures RowByText(PageTexts(rows), name).Some?
    ensures RowByText(PageTexts(rows), name).value <= i
  {
    var r := rows[i].resource;
    assert r.name == r.name + [];
    ContainsNameText(r, r.name, []);
  }

  /** A row's text contains every prefix of its name. */
  lemma ContainsNameText(r: ResourceView, key: string, rest: string)
    requires r.name == key + rest
    ensures Contains(NameText(r), key)
  {
    var icon := Upper(if |r.kind| < 2 then r.kind else r.kind[..2]);
    ContainsInfix(icon + " ", key, rest);
    assert icon + " " + key + rest == NameText(r);
  }

  /** On the page, whatever the types: a booking for "Room 1" lands on a
      "Room 10" row listed first. */
  lemma PageRowPicksLongerName(rows: seq<RowView>)
    requires 2 <= |rows| && rows[0].resource.name == "Room 10" && rows[1].resource.name == "Room 1"
    ensures RowByText(PageTexts(rows), "Room 1") == Some(0)
  {
    assert Trim("Room 1") == "Room 1" by { TrimClean("Room 1"); }
    RoomTenSplit();
    ContainsNameText(rows[0].resource, "Room 1", "0");
    assert Contains(PageTexts(rows)[0], "Room 1");
  }

  lemma RoomTenSplit()
    ensures "Room 10" == "Room 1" + "0"
  {
  }

  /** The grid as written: rows are found with `includes` (RowByText) over
      the page's name texts. */
  function RenderBookings(rows: seq<RowView>, bs: seq<ShownBooking>): (grid: seq<seq<Cell>>)
    ensures |grid| == |rows|
    ensures forall i :: 0 <= i < |grid| ==> |grid[i]| == 12
  {
    RenderBookingsWith(RowByText, PageTexts(rows), bs)
  }

  /** As written, cell `k` of row `i` is decided by the applied bookings
      whose name the row's text contains first, which may belong to another
      resource (PageRowPicksLongerName). */
  lemma RenderBookingsMeaning(rows: seq<RowView>, bs: seq<ShownBooking>, i: nat, k: nat)
    requires i < |rows| && k < 12
    ensures var texts := PageTexts(rows);
      var m := RenderBookings(rows, bs)[i][k].marks;
      && (Available in m <==>
            forall b :: b in Processed(RowByText, texts, bs) && RowByText(texts, b.resourceName) == Some(i)
              ==> !Hit(b, TimeSlots[k]))
      && (YourBooking in m <==>
            exists b :: b in Processed(RowByText, texts, bs) && RowByText(texts, b.resourceName) == Some(i)
              && Hit(b, TimeSlots[k]) && Lower(b.status) == "approved")
  {
    RenderBookingsWithMeaning(RowByText, PageTexts(rows), bs, i, k);
  }

  /** The corrected grid: rows are found by name equality (RowByName). */
  function RenderBookingsFixed(rows: seq<RowView>, bs: seq<ShownBooking>): (grid: seq<seq<Cell>>)
    ensures |grid| == |rows|
    ensures forall i :: 0 <= i < |grid| ==> |grid[i]| == 12
  {
    RenderBookingsWith(RowByName, RowNames(rows), bs)
  }

  /** With distinct resource names, the corrected grid's cell `k` of row `i`
      stays available exactly when no applied booking for that row's own
      resource hits slot `k`, and shows the user's booking exactly when an
      approved one does. */
  lemma RenderBookingsFixedMeaning(rows: seq<RowView>, bs: seq<ShownBooking>, i: nat, k: nat)
    requires forall a, b :: 0 <= a < b < |rows| ==> rows[a].resource.name != rows[b].resource.name
    requires i < |rows| && k < 12
    ensures var names := RowNames(rows);
      var m := RenderBookingsFixed(rows, bs)[i][k].marks;
      && (Available in m <==>
            forall b :: b in Processed(RowByName, names, bs) && Trim(b.resourceName) == rows[i].resource.name
              ==> !Hit(b, TimeSlots[k]))
      && (YourBooking in m <==>
            exists b :: b in Processed(RowByName, names, bs) && Trim(b.resourceName) == rows[i].resource.name
              && Hit(b, TimeSlots[k]) && Lower(b.status) == "approved")
  {
    var names := RowNames(rows);
    RenderBookingsWithMeaning(RowByName, names, bs, i, k);
    forall b: ShownBooking
      ensures RowByName(names, b.resourceName) == Some(i) <==> Trim(b.resourceName) == names[i]
    {
      if Trim(b.resourceName) == names[i] {
        RowByNameIsOwnRow(names, b.resourceName, i);
      }
    }
  }

  // ---------------------------------------------------------------------------
  // The date sent to the server
  // ---------------------------------------------------------------------------

  /** `getCurrentDateStr`: year, then the 1-based month and the day, each
      padded to two digits. */
  function CurrentDateStr(year: int, month0: nat, day: nat): string {
    IntToString(year) + "-" + Pad2(month0 + 1) + "-" + Pad2(day)
  }

  lemma {:induction false} FourDigits(n: nat)
    requires 1000 <= n <= 9999
    ensures |NatToString(n)| == 4
  {
    var a := n / 10;
    assert 100 <= a < 1000;
    assert NatToString(n) == NatToString(a) + [DigitChar(n % 10)];
    var b := a / 10;
    assert 10 <= b < 100;
    assert NatToString(a) == NatToString(b) + [DigitChar(a % 10)];
  }

  /** For a four-digit year the string is `YYYY-MM-DD` and reads back as the
      year, the 1-based month and the day. */
  lemma CurrentDateStrFormat(year: int, month0: nat, day: nat)
    requires 1000 <= year <= 9999 && month0 < 12 && 1 <= day <= 31
    ensures var s := CurrentDateStr(year, month0, day);
      && |s| == 10 && s[4] == '-' && s[7] == '-'
      && AllDigits(s[..4]) && AllDigits(s[5..7]) && AllDigits(s[8..])
      && DigitsValue(s[..4]) == year && DigitsValue(s[5..7]) == month0 + 1 && DigitsValue(s[8..]) == day
  {
    var y := NatToString(year);
    FourDigits(year);
    NatToStringRoundTrip(year);
    var s := CurrentDateStr(year, month0, day);
    assert s == y + "-" + Pad2(month0 + 1) + "-" + Pad2(day);
    assert s[..4] == y;
    assert s[5..7] == Pad2(month0 + 1);
    assert s[8..] == Pad2(day);
  }
}
