/** The pure helpers of the admin dashboard (frontend/js/admin.js): the
    status and category lookups of a resource card, the 12-hour time and the
    weekly schedule it shows, the availability entries the resource form
    builds from its day checkboxes and restores from a resource, the
    utilisation bars and the top-five table, and two labels. */
module AdminPage {

  import opened Common
  import opened Text
  import opened Seqs
  import BookingPage
  import ResourceModel

  // ---------------------------------------------------------------------------
  // Status and category lookups
  // ---------------------------------------------------------------------------

  /** `table[key] || fallback`: the entry for a key the table has (and whose
      value is not ""), the fallback for anything else. */
  function Lookup(table: map<string, string>, key: string, fallback: string): (r: string)
    ensures key in table && table[key] != "" ==> r == table[key]
    ensures key !in table ==> r == fallback
  {
    if key in table && table[key] != "" then table[key] else fallback
  }

  const StatusClasses: map<string, string> :=
    map["available" := "status-available", "blocked" := "status-blocked", "maintenance" := "status-maintenance"]

  const StatusIcons: map<string, string> :=
    map["available" := "✓", "blocked" := "🚫", "maintenance" := "🔧"]

  const CategoryIcons: map<string, string> :=
    map["study-room" := "📚", "lab" := "💻", "meeting-room" := "🏢", "equipment" := "🔧"]

  /** `getStatusClass`: "status-" and the status for the three known
      statuses, "status-available" for any other text. */
  function StatusClass(status: string): (c: string)
    ensures status in {"available", "blocked", "maintenance"} ==> c == "status-" + status
    ensures status !in {"available", "blocked", "maintenance"} ==> c == "status-available"
  {
    Lookup(StatusClasses, status, "status-available")
  }

  /** `getStatusIcon`: a tick for "available" and for any unknown status. */
  function StatusIcon(status: string): (icon: string)
    ensures icon == "✓" <==> status != "blocked" && status != "maintenance"
    ensures status == "blocked" ==> icon == "🚫"
    ensures status == "maintenance" ==> icon == "🔧"
  {
    Lookup(StatusIcons, status, "✓")
  }

  /** `getCategoryIcon`: the books icon for "study-room" and for any unknown
      category; the four known categories have four different icons. */
  function CategoryIcon(category: string): (icon: string)
    ensures icon == "📚" <==> category !in {"lab", "meeting-room", "equipment"}
    ensures category in CategoryIcons ==> icon == CategoryIcons[category]
  {
    Lookup(CategoryIcons, category, "📚")
  }

  lemma CategoryIconsDistinct(a: string, b: string)
    requires a in CategoryIcons && b in CategoryIcons && a != b
    ensures CategoryIcon(a) != CategoryIcon(b)
  {
  }

  // ---------------------------------------------------------------------------
  // formatTime
  // ---------------------------------------------------------------------------

  /** `timeStr.split(':')` destructured as `[hours, mins]`: the text before
      the first ':' and the text from there to the next ':' (None, that is
      `undefined`, when there is no ':'). */
  function SplitTime(t: string): (r: (string, Option<string>))
    ensures ':' !in r.0
    ensures r.1.None? <==> ':' !in t
    ensures r.1.None? ==> r.0 == t
    ensures r.1.Some? ==>
      var n := |r.0| + 1 + |r.1.value|;
      && ':' !in r.1.value && n <= |t| && t[..n] == r.0 + ":" + r.1.value
      && (n == |t| || t[n] == ':')
  {
    var k := IndexOf(t, ':');
    if k == |t| then
      (t, None)
    else
      var rest := t[k + 1..];
      var j := IndexOf(rest, ':');
      assert t[..k + 1 + j] == t[..k] + ":" + rest[..j];
      (t[..k], Some(rest[..j]))
  }

  /** `h % 12 || 12`, with JavaScript's `%` (the sign of the dividend) and
      NaN (None) giving 12. */
  function Hour12(h: Option<int>): (r: int)
    ensures r != 0
    ensures h.None? ==> r == 12
    ensures h.Some? && h.value >= 0 ==> 1 <= r <= 12 && r % 12 == h.value % 12
    ensures h.Some? && h.value < 0 ==> r == 12 || -12 < r < 0
  {
    if h.None? then 12
    else
      var rem := if h.value >= 0 then h.value % 12 else -((-h.value) % 12);
      if rem == 0 then 12 else rem
  }

  /** `h >= 12 ? 'PM' : 'AM'`; NaN compares false. */
  function Meridiem(h: Option<int>): (r: string)
    ensures r == "PM" <==> h.Some? && h.value >= 12
    ensures r != "PM" ==> r == "AM"
  {
    if h.Some? && h.value >= 12 then "PM" else "AM"
  }

  /** `formatTime`: "" for an absent or empty time, otherwise
      `${hour12}:${mins} ${ampm}`; minutes missing print as "undefined". */
  function FormatTime(timeStr: Option<string>): (r: string)
    ensures r == "" <==> timeStr.None? || timeStr.value == ""
  {
    if timeStr.None? || timeStr.value == "" then ""
    else
      var parts := SplitTime(timeStr.value);
      var h := ParseInt(parts.0);
      var mins := if parts.1.Some? then parts.1.value else "undefined";
      IntToString(Hour12(h)) + ":" + mins + " " + Meridiem(h)
  }

  /** The hour and minutes of a 24-hour time "HH:MM", with or without
      seconds. */
  lemma SplitClock(h: nat, mm: string, rest: string)
    requires h < 100 && AllDigits(mm) && |mm| == 2 && (rest == [] || rest[0] == ':')
    ensures SplitTime(Pad2(h) + ":" + mm + rest) == (Pad2(h), Some(mm))
  {
    var p := Pad2(h);
    var tail := mm + rest;
    var t := p + ":" + mm + rest;
    assert t[..2] == p && t[2] == ':' && t[3..] == tail;
    IndexOfAt(t, ':', 2);
    assert tail[..2] == mm;
    IndexOfAt(tail, ':', 2);
  }

  /** `parseInt(hours)` is called without a radix, so an hour written "0x10"
      is read as sixteen and prints as 4 PM. */
  lemma FormatTimeHexHour()
    ensures FormatTime(Some("0x10:00")) == "4:00 PM"
  {
    SplitHexTime();
    HexHourParsed();
    FormatTimeOfParts("0x10:00", "0x10", "00");
    SixteenIsFourPm();
    assert "4" + ":" + "00" + " " + "PM" == "4:00 PM";
  }

  lemma FormatTimeOfParts(t: string, hours: string, mins: string)
    requires SplitTime(t) == (hours, Some(mins))
    ensures FormatTime(Some(t)) == IntToString(Hour12(ParseInt(hours))) + ":" + mins + " " + Meridiem(ParseInt(hours))
  {
  }

  lemma HexHourParsed()
    ensures ParseInt("0x10") == Some(16)
  {
    ParseIntHex('x', "10");
    assert HexValue("10") == 16 by { assert "10"[..1] == "1"; }
    assert ['0', 'x'] + "10" == "0x10";
  }

  lemma SixteenIsFourPm()
    ensures IntToString(Hour12(Some(16))) == "4" && Meridiem(Some(16)) == "PM"
  {
    assert Hour12(Some(16)) == 4;
  }

  lemma SplitHexTime()
    ensures SplitTime("0x10:00") == ("0x10", Some("00"))
  {
    var t := "0x10:00";
    assert t[..4] == "0x10" && t[4] == ':' && t[5..] == "00";
    IndexOfAt(t, ':', 4);
    IndexOfAt(t[5..], ':', 2);
    assert t[5..][..2] == "00";
  }

  /** A 24-hour time "HH:MM" (with or without seconds) prints as its 12-hour
      form. */
  lemma FormatTimeTwelveHour(h: nat, mm: string, rest: string)
    requires h < 24 && AllDigits(mm) && |mm| == 2 && (rest == [] || rest[0] == ':')
    ensures FormatTime(Some(Pad2(h) + ":" + mm + rest))
         == NatToString(Hour12(Some(h))) + ":" + mm + " " + Meridiem(Some(h))
  {
    SplitClock(h, mm, rest);
    assert ParseInt(Pad2(h)) == Some(h);
  }

  /** The 12-hour hour and meridiem of an hour of the day read back, through
      the booking page's 12-hour conversion, as that hour. */
  lemma TwelveHourReadsBack(h: nat)
    requires h < 24
    ensures 1 <= Hour12(Some(h)) <= 12
    ensures BookingPage.To24(Hour12(Some(h)), Lower(Meridiem(Some(h)))) == h
  {
    MeridiemLower(Some(h));
    var h12 := Hour12(Some(h));
    if h >= 12 {
      assert h % 12 == h - 12;
      assert Lower(Meridiem(Some(h))) == "pm";
      assert h12 == if h == 12 then 12 else h - 12;
    } else {
      assert h % 12 == h;
      assert Lower(Meridiem(Some(h))) == "am";
      assert h12 == if h == 0 then 12 else h;
    }
  }

  lemma MeridiemLower(h: Option<int>)
    ensures Lower(Meridiem(h)) == if Meridiem(h) == "PM" then "pm" else "am"
  {
    assert Lower("PM") == [LowerChar('P'), LowerChar('M')];
    assert Lower("AM") == [LowerChar('A'), LowerChar('M')];
  }

  /** Midnight is 12 AM and noon is 12 PM. */
  lemma MidnightAndNoon()
    ensures Hour12(Some(0)) == 12 && Meridiem(Some(0)) == "AM"
    ensures Hour12(Some(12)) == 12 && Meridiem(Some(12)) == "PM"
  {
  }

  // ---------------------------------------------------------------------------
  // formatAvailability
  // ---------------------------------------------------------------------------

  /** One availability entry as the page receives it: its `day_of_week` is
      absent, null or a number; a time that is absent or null is None (the
      page reads the two alike). */
  datatype Avail = Avail(day: JsField<int>, openTime: Option<string>, closeTime: Option<string>)

  /** The filter `a && a.day_of_week !== null`: an entry without a
      `day_of_week` passes it. */
  predicate IsValidEntry(a: Option<Avail>) {
    a.Some? && !a.value.day.Null?
  }

  /** An entry that passes the filter with its `day_of_week` absent. */
  predicate MissingDay(a: Option<Avail>) {
    a.Some? && a.value.day.Undefined?
  }

  const NotSet := "Schedule not set"

  lemma NotSetHasNoColon()
    ensures ':' !in NotSet
  {
    assert NotSet == ['S', 'c', 'h', 'e', 'd', 'u', 'l', 'e', ' ', 'n', 'o', 't', ' ', 's', 'e', 't'];
  }

  const DayNames: seq<string> := ["Sun", "Mon", "Tue", "Wed", "Thu", "Fri", "Sat"]

  /** `days[d]`; a missing day (None) or one outside 0..6 is `undefined`,
      which `join` prints as "". */
  function DayName(d: Option<int>): (r: string)
    ensures '-' !in r && ',' !in r
  {
    if d.Some? && 0 <= d.value < 7 then DayNames[d.value] else ""
  }

  /** `parts.join(sep)`. */
  function Join(parts: seq<string>, sep: string): string {
    if parts == [] then ""
    else if |parts| == 1 then parts[0]
    else parts[0] + sep + Join(parts[1..], sep)
  }

  /** A character in none of the parts nor in the separator is not in the
      joined text. */
  lemma {:induction false} JoinAvoids(parts: seq<string>, sep: string, c: char)
    requires forall i :: 0 <= i < |parts| ==> c !in parts[i]
    requires c !in sep
    ensures c !in Join(parts, sep)
  {
    if |parts| > 1 {
      assert forall i :: 0 <= i < |parts| - 1 ==> parts[1..][i] == parts[i + 1];
      JoinAvoids(parts[1..], sep, c);
    }
  }

  /** The numbers among `validAvail.map(a => a.day_of_week)`, in entry
      order. */
  function ValidDays(entries: seq<Option<Avail>>): (ds: seq<int>)
    ensures |ds| <= |entries|
  {
    if entries == [] then []
    else (if entries[0].Some? && entries[0].value.day.Given? then [entries[0].value.day.value] else [])
         + ValidDays(entries[1..])
  }

  /** How many entries pass the filter without a `day_of_week`: none exactly
      when no entry lacks it. */
  function MissingDays(entries: seq<Option<Avail>>): (n: nat)
    ensures n <= |entries|
    ensures n == 0 <==> forall i :: 0 <= i < |entries| ==> !MissingDay(entries[i])
  {
    if entries == [] then 0
    else
      assert forall i :: 1 <= i < |entries| ==> entries[1..][i - 1] == entries[i];
      (if MissingDay(entries[0]) then 1 else 0) + MissingDays(entries[1..])
  }

  /** Each entry that passes the filter gives either a number or a missing
      day. */
  lemma {:induction false} ValidDaysCount(entries: seq<Option<Avail>>)
    ensures |ValidDays(entries)| + MissingDays(entries) == |Filter(entries, IsValidEntry)|
  {
    if entries != [] {
      ValidDaysCount(entries[1..]);
      FilterCons(entries, IsValidEntry);
    }
  }

  /** A number is listed exactly when some entry has it as its
      `day_of_week`. */
  lemma {:induction false} ValidDaysMembers(entries: seq<Option<Avail>>, d: int)
    ensures d in ValidDays(entries) <==>
      exists i :: 0 <= i < |entries| && entries[i].Some? && entries[i].value.day == Given(d)
  {
    if entries != [] {
      ValidDaysMembers(entries[1..], d);
      assert forall i :: 1 <= i < |entries| ==> entries[1..][i - 1] == entries[i];
    }
  }

  /** Lexicographic order on text, as JavaScript compares strings. */
  predicate LexLe(a: string, b: string) {
    if a == [] then true
    else if b == [] then false
    else if a[0] != b[0] then a[0] < b[0]
    else LexLe(a[1..], b[1..])
  }

  lemma {:induction false} LexTotal(a: string, b: string)
    ensures LexLe(a, b) || LexLe(b, a)
  {
    if a != [] && b != [] && a[0] == b[0] {
      LexTotal(a[1..], b[1..]);
    }
  }

  /** The order of the default `sort()`: numbers compared as their decimal
      text. */
  predicate JsSortLe(a: int, b: int) {
    LexLe(IntToString(a), IntToString(b))
  }

  /** On single digits the text order is the numeric order. */
  lemma DigitOrder(a: int, b: int)
    requires 0 <= a < 10 && 0 <= b < 10
    ensures JsSortLe(a, b) <==> a <= b
  {
    var sa := IntToString(a);
    var sb := IntToString(b);
    assert sa == [DigitChar(a)] && sb == [DigitChar(b)];
    if a == b {
      assert sa == sb;
      assert LexLe(sa[1..], sb[1..]);
    } else {
      assert sa[0] != sb[0];
      assert LexLe(sa, sb) == (sa[0] < sb[0]);
    }
  }

  /** The numeric days in `sort()` order. */
  function SortedNumbers(entries: seq<Option<Avail>>): (ds: seq<int>)
    ensures |ds| == |ValidDays(entries)|
    ensures multiset(ds) == multiset(ValidDays(entries))
  {
    SortBy(ValidDays(entries), JsSortLe)
  }

  /** `validAvail.map(a => a.day_of_week).sort()`: one value per entry that
      passes the filter; `sort()` places `undefined` after every number, so
      the numbers come first in text order and the missing days (None)
      last. */
  function SortedDays(entries: seq<Option<Avail>>): (ds: seq<Option<int>>)
    ensures |ds| == |ValidDays(entries)| + MissingDays(entries) == |Filter(entries, IsValidEntry)|
    ensures forall i :: 0 <= i < |SortedNumbers(entries)| ==> ds[i] == Some(SortedNumbers(entries)[i])
    ensures forall i :: |SortedNumbers(entries)| <= i < |ds| ==> ds[i].None?
  {
    ValidDaysCount(entries);
    Numbers(SortedNumbers(entries)) + Missing(MissingDays(entries))
  }

  function Numbers(ns: seq<int>): (ds: seq<Option<int>>)
    ensures |ds| == |ns| && forall i :: 0 <= i < |ns| ==> ds[i] == Some(ns[i])
  {
    seq(|ns|, i requires 0 <= i < |ns| => Some(ns[i]))
  }

  function Missing(n: nat): (ds: seq<Option<int>>)
    ensures |ds| == n && forall i :: 0 <= i < n ==> ds[i].None?
  {
    seq(n, _ => None)
  }

  /** A number is among the sorted days exactly when it is one of the
      numeric days. */
  lemma SortedDaysMembers(entries: seq<Option<Avail>>, d: int)
    ensures Some(d) in SortedDays(entries) <==> d in ValidDays(entries)
  {
    var ds := SortedDays(entries);
    var nums := SortedNumbers(entries);
    if d in ValidDays(entries) {
      assert d in multiset(nums);
      var k :| 0 <= k < |nums| && nums[k] == d;
      assert ds[k] == Some(d);
    }
    if Some(d) in ds {
      var k :| 0 <= k < |ds| && ds[k] == Some(d);
      assert nums[k] in multiset(ValidDays(entries));
    }
  }

  /** A missing day is among the sorted days exactly when some entry passes
      the filter without a `day_of_week`. */
  lemma SortedDaysMissing(entries: seq<Option<Avail>>)
    ensures None in SortedDays(entries) <==> exists i :: 0 <= i < |entries| && MissingDay(entries[i])
  {
    var ds := SortedDays(entries);
    var n := |SortedNumbers(entries)|;
    if MissingDays(entries) > 0 {
      assert ds[n] == None;
    }
    if None in ds {
      var k :| 0 <= k < |ds| && ds[k] == None;
      assert k >= n;
    }
  }

  /** With weekday numbers, `sort()` lists the numbers in ascending order,
      and every missing day comes after them. */
  lemma SortedDaysAscending(entries: seq<Option<Avail>>)
    requires forall i :: 0 <= i < |entries| && entries[i].Some? && entries[i].value.day.Given? ==>
      0 <= entries[i].value.day.value < 7
    ensures var ds := SortedDays(entries);
      forall i :: 0 < i < |ds| && ds[i].Some? ==> ds[i - 1].Some? && ds[i - 1].value <= ds[i].value
  {
    forall a, b ensures JsSortLe(a, b) || JsSortLe(b, a) {
      LexTotal(IntToString(a), IntToString(b));
    }
    SortBySorted(ValidDays(entries), JsSortLe);
    var s := SortedNumbers(entries);
    var ds := SortedDays(entries);
    forall i | 0 < i < |ds| && ds[i].Some?
      ensures ds[i - 1].Some? && ds[i - 1].value <= ds[i].value
    {
      assert i < |s|;
      assert s[i - 1] in multiset(ValidDays(entries)) && s[i] in multiset(ValidDays(entries));
      ValidDaysMembers(entries, s[i - 1]);
      ValidDaysMembers(entries, s[i]);
      DigitOrder(s[i - 1], s[i]);
    }
  }

  /** The day text of `formatAvailability`, as written: any seven values
      are "Mon-Sun", any five that include a 1 and a 5 are "Mon-Fri". */
  function DayText(dayNums: seq<Option<int>>): (r: string)
    ensures r == "Mon-Sun" <==> |dayNums| == 7
    ensures r == "Mon-Fri" <==> |dayNums| == 5 && Some(1) in dayNums && Some(5) in dayNums
  {
    if |dayNums| == 7 then "Mon-Sun"
    else if |dayNums| == 5 && Some(1) in dayNums && Some(5) in dayNums then "Mon-Fri"
    else DayList(dayNums)
  }

  /** `dayNums.map(d => days[d]).join(', ')`: never a range. */
  function DayList(dayNums: seq<Option<int>>): (r: string)
    ensures '-' !in r
  {
    var names := seq(|dayNums|, i requires 0 <= i < |dayNums| => DayName(dayNums[i]));
    JoinAvoids(names, ", ", '-');
    Join(names, ", ")
  }

  /** The day text as intended: the ranges only for exactly the seven days
      and exactly Monday to Friday. */
  function DayTextFixed(dayNums: seq<Option<int>>): (r: string)
    ensures r == "Mon-Sun" <==> dayNums == [Some(0), Some(1), Some(2), Some(3), Some(4), Some(5), Some(6)]
    ensures r == "Mon-Fri" <==> dayNums == [Some(1), Some(2), Some(3), Some(4), Some(5)]
  {
    if dayNums == [Some(0), Some(1), Some(2), Some(3), Some(4), Some(5), Some(6)] then "Mon-Sun"
    else if dayNums == [Some(1), Some(2), Some(3), Some(4), Some(5)] then "Mon-Fri"
    else DayList(dayNums)
  }

  /** `formatAvailability`, given how the sorted days are named:
      "Schedule not set" exactly when no entry passes the filter (absent and
      empty input included). */
  function FormatAvailabilityWith(availability: Option<seq<Option<Avail>>>, dayText: seq<Option<int>> -> string): (r: string)
    ensures r == NotSet <==> availability.None? || forall a :: a in availability.value ==> !IsValidEntry(a)
  {
    if availability.None? || availability.value == [] then NotSet
    else
      var valid := Filter(availability.value, IsValidEntry);
      if valid == [] then NotSet
      else
        assert valid[0] in valid;
        var first := valid[0].value;
        var dt := dayText(SortedDays(availability.value));
        var r := dt + ": " + FormatTime(first.openTime) + " - " + FormatTime(first.closeTime);
        assert r[|dt|] == ':';
        NotSetHasNoColon();
        r
  }

  /** `formatAvailability` as written. */
  function FormatAvailability(availability: Option<seq<Option<Avail>>>): (r: string)
    ensures r == NotSet <==> availability.None? || forall a :: a in availability.value ==> !IsValidEntry(a)
  {
    FormatAvailabilityWith(availability, DayText)
  }

  /** `formatAvailability` with the intended day ranges. */
  function FormatAvailabilityFixed(availability: Option<seq<Option<Avail>>>): (r: string)
    ensures r == NotSet <==> availability.None? || forall a :: a in availability.value ==> !IsValidEntry(a)
  {
    FormatAvailabilityWith(availability, DayTextFixed)
  }

  /** The times shown are those of the first entry that passes the filter,
      after the day text of the sorted days. */
  lemma AvailabilityTimes(entries: seq<Option<Avail>>, j: nat, dayText: seq<Option<int>> -> string)
    requires j < |entries| && IsValidEntry(entries[j])
    requires forall i :: 0 <= i < j ==> !IsValidEntry(entries[i])
    ensures FormatAvailabilityWith(Some(entries), dayText)
         == dayText(SortedDays(entries)) + ": " + FormatTime(entries[j].value.openTime)
            + " - " + FormatTime(entries[j].value.closeTime)
  {
    FilterFirst(entries, IsValidEntry, j);
  }

  /** A single entry without a `day_of_week`, open from 09:00 with no
      closing time, passes the filter: the schedule prints an empty day
      text and an empty closing time, under either day rule. */
  lemma MissingDayShown()
    ensures FormatAvailability(Some([Some(Avail(Undefined, Some("09:00"), None))])) == ": 9:00 AM - "
    ensures FormatAvailabilityFixed(Some([Some(Avail(Undefined, Some("09:00"), None))])) == ": 9:00 AM - "
  {
    var entries := [Some(Avail(Undefined, Some("09:00"), None))];
    AvailabilityTimes(entries, 0, DayText);
    AvailabilityTimes(entries, 0, DayTextFixed);
    OneMissingDay(entries);
    NineAm();
    MissingDayLine();
  }

  lemma OneMissingDay(entries: seq<Option<Avail>>)
    requires |entries| == 1 && MissingDay(entries[0])
    ensures SortedDays(entries) == [None]
    ensures DayText([None]) == "" && DayTextFixed([None]) == ""
  {
    assert ValidDays(entries[1..]) == [];
    assert ValidDays(entries) == [];
    FilterCons(entries, IsValidEntry);
    assert Filter(entries[1..], IsValidEntry) == [];
  }

  lemma NineAm()
    ensures FormatTime(Some("09:00")) == "9:00 AM"
  {
    FormatTimeTwelveHour(9, "00", "");
    NineParts();
    NineAmText();
  }

  lemma NineParts()
    ensures Pad2(9) + ":" + "00" + "" == "09:00"
    ensures NatToString(Hour12(Some(9))) == "9" && Meridiem(Some(9)) == "AM"
  {
    assert Hour12(Some(9)) == 9;
  }

  lemma NineAmText()
    ensures "9" + ":" + "00" + " " + "AM" == "9:00 AM"
  {
  }

  lemma MissingDayLine()
    ensures "" + ": " + "9:00 AM" + " - " + "" == ": 9:00 AM - "
  {
  }

  /** An entry for day `d` without times. */
  function DayOnly(d: int): Option<Avail> {
    Some(Avail(Given(d), None, None))
  }

  /** As written, any five days that include Sunday, Monday and Friday are
      named "Mon-Fri"; the intended day text is then not that range. */
  lemma FiveDaysWithSunday(entries: seq<Option<Avail>>)
    requires |Filter(entries, IsValidEntry)| == 5
    requires 0 in ValidDays(entries) && 1 in ValidDays(entries) && 5 in ValidDays(entries)
    ensures DayText(SortedDays(entries)) == "Mon-Fri"
    ensures DayTextFixed(SortedDays(entries)) != "Mon-Fri"
  {
    SortedDaysMembers(entries, 0);
    SortedDaysMembers(entries, 1);
    SortedDaysMembers(entries, 5);
    NoSunday();
  }

  lemma NoSunday()
    ensures Some(0) !in [Some(1), Some(2), Some(3), Some(4), Some(5)]
  {
  }

  /** Sunday, Monday, Wednesday, Friday and Saturday are such five days. */
  lemma MonFriAsWritten()
    ensures var entries := [DayOnly(0), DayOnly(1), DayOnly(3), DayOnly(5), DayOnly(6)];
      |Filter(entries, IsValidEntry)| == 5 && 0 in ValidDays(entries) && 1 in ValidDays(entries) && 5 in ValidDays(entries)
  {
    var entries := [DayOnly(0), DayOnly(1), DayOnly(3), DayOnly(5), DayOnly(6)];
    assert ValidDays(entries[4..]) == [6];
    assert ValidDays(entries[3..]) == [5, 6];
    assert ValidDays(entries[2..]) == [3, 5, 6];
    assert ValidDays(entries[1..]) == [1, 3, 5, 6];
    assert ValidDays(entries) == [0, 1, 3, 5, 6];
    FilterAll(entries, IsValidEntry);
  }

  // ---------------------------------------------------------------------------
  // The resource form's day checkboxes
  // ---------------------------------------------------------------------------

  /** `index === 6 ? 0 : index + 1`: the boxes run Monday to Sunday, the
      weekdays Sunday (0) to Saturday (6). */
  function CheckboxDay(i: nat): (d: nat)
    ensures i < 7 ==> d < 7 && DayCheckbox(d) == i
  {
    if i == 6 then 0 else i + 1
  }

  /** The box of a weekday. */
  function DayCheckbox(d: nat): nat {
    if d == 0 then 6 else d - 1
  }

  lemma DayCheckboxRoundTrip(d: nat)
    requires d < 7
    ensures DayCheckbox(d) < 7 && CheckboxDay(DayCheckbox(d)) == d
  {
  }

  /** The weekdays of the checked boxes, in box order. */
  function CheckedDays(checked: seq<bool>): (days: seq<nat>)
    ensures |days| <= |checked|
  {
    if checked == [] then []
    else
      var n := |checked| - 1;
      CheckedDays(checked[..n]) + (if checked[n] then [CheckboxDay(n)] else [])
  }

  /** With at most seven boxes, a weekday is listed exactly when its box is
      checked, and the days come in box order (so none twice). */
  lemma {:induction false} CheckedDaysMeaning(checked: seq<bool>)
    requires |checked| <= 7
    ensures forall d: nat :: d in CheckedDays(checked) <==> d < 7 && DayCheckbox(d) < |checked| && checked[DayCheckbox(d)]
    ensures forall k, l :: 0 <= k < l < |CheckedDays(checked)| ==>
      DayCheckbox(CheckedDays(checked)[k]) < DayCheckbox(CheckedDays(checked)[l])
  {
    if checked != [] {
      var n := |checked| - 1;
      var before := checked[..n];
      CheckedDaysMeaning(before);
      assert forall i :: 0 <= i < n ==> before[i] == checked[i];
      forall d: nat
        ensures d in CheckedDays(checked) <==> d < 7 && DayCheckbox(d) < |checked| && checked[DayCheckbox(d)]
      {
        if d < 7 {
          DayCheckboxRoundTrip(d);
        }
      }
    }
  }

  /** An entry the form submits. */
  function FormEntry(day: nat, openTime: string, closeTime: string): Avail {
    Avail(Given(day), Some(openTime), Some(closeTime))
  }

  /** The entries for the checked boxes, all with the form's two times. */
  function FormAvailability(checked: seq<bool>, openTime: string, closeTime: string): (av: seq<Avail>)
    ensures |av| == |CheckedDays(checked)|
  {
    var days := CheckedDays(checked);
    seq(|days|, k requires 0 <= k < |days| => FormEntry(days[k], openTime, closeTime))
  }

  /** The `forEach` over the boxes in `handleResourceSubmit`: one entry per
      checked box, pushed in box order. */
  method BuildAvailability(checked: seq<bool>, openTime: string, closeTime: string) returns (availability: seq<Avail>)
    ensures availability == FormAvailability(checked, openTime, closeTime)
  {
    availability := [];
    var i := 0;
    while i < |checked|
      invariant 0 <= i <= |checked|
      invariant availability == FormAvailability(checked[..i], openTime, closeTime)
    {
      assert checked[..i + 1][..i] == checked[..i];
      if checked[i] {
        availability := availability + [FormEntry(CheckboxDay(i), openTime, closeTime)];
      }
      i := i + 1;
    }
    assert checked[..|checked|] == checked;
  }

  /** `availability.some(a => a.day_of_week === d)`. */
  predicate HasDay(availability: seq<Avail>, d: int) {
    exists a :: a in availability && a.day == Given(d)
  }

  /** The boxes `editResource` shows: each box checked exactly when some
      entry has its weekday; left as they were when there are no entries. */
  function RestoredBoxes(current: seq<bool>, availability: seq<Avail>): (boxes: seq<bool>)
    ensures |boxes| == |current|
    ensures availability != [] ==> forall i :: 0 <= i < |boxes| ==> (boxes[i] <==> HasDay(availability, CheckboxDay(i)))
  {
    if availability == [] then current
    else seq(|current|, i requires 0 <= i < |current| => HasDay(availability, CheckboxDay(i)))
  }

  /** `firstAvail.open_time?.slice(0, 5) || fallback`. */
  function RestoredTime(t: Option<string>, fallback: string): (r: string)
    ensures t.Some? && t.value != "" ==> r == t.value[..if |t.value| < 5 then |t.value| else 5]
    ensures t.None? || t.value == "" ==> r == fallback
  {
    if t.None? then fallback
    else
      var cut := t.value[..if |t.value| < 5 then |t.value| else 5];
      if cut == "" then fallback else cut
  }

  /** A weekday is among the saved entries exactly when its box was
      checked. */
  lemma SavedDays(checked: seq<bool>, openTime: string, closeTime: string, i: nat)
    requires |checked| == 7 && i < 7
    ensures HasDay(FormAvailability(checked, openTime, closeTime), CheckboxDay(i)) <==> checked[i]
  {
    var av := FormAvailability(checked, openTime, closeTime);
    var days := CheckedDays(checked);
    CheckedDaysMeaning(checked);
    if checked[i] {
      assert CheckboxDay(i) in days;
      var k :| 0 <= k < |days| && days[k] == CheckboxDay(i);
      assert av[k] in av && av[k].day == Given(CheckboxDay(i));
    }
    if HasDay(av, CheckboxDay(i)) {
      var a :| a in av && a.day == Given(CheckboxDay(i));
      var k :| 0 <= k < |av| && av[k] == a;
      assert days[k] == CheckboxDay(i);
    }
  }

  /** The page's save step and restore step agree: restoring the entries
      the form builds shows the same seven boxes (when one of them is
      checked) and the same "HH:MM" times. This holds for a server that
      returns `availability` as it was sent; the modelled one does not (see
      `FormBodyRefused`). */
  lemma EditShowsSavedForm(checked: seq<bool>, current: seq<bool>, openTime: string, closeTime: string)
    requires |checked| == 7 && |current| == 7
    requires exists i :: 0 <= i < 7 && checked[i]
    requires |openTime| == 5 && |closeTime| == 5
    ensures var av := FormAvailability(checked, openTime, closeTime);
      && RestoredBoxes(current, av) == checked
      && av != []
      && RestoredTime(av[0].openTime, "08:00") == openTime
      && RestoredTime(av[0].closeTime, "22:00") == closeTime
  {
    var av := FormAvailability(checked, openTime, closeTime);
    var i0 :| 0 <= i0 < 7 && checked[i0];
    SavedDays(checked, openTime, closeTime, i0);
    assert av != [];
    forall i | 0 <= i < 7
      ensures RestoredBoxes(current, av)[i] == checked[i]
    {
      SavedDays(checked, openTime, closeTime, i);
    }
    assert openTime[..5] == openTime && closeTime[..5] == closeTime;
  }

  /** The fields of the form's JSON body `{name, category, location,
      capacity, description, availability}` that createResource and
      updateResource destructure: the form sends no `type` and no `status`,
      and a capacity `parseInt` cannot read is NaN, which JSON writes as
      `null`. */
  function FormInput(name: string, location: string, capacityText: string): (input: ResourceModel.ResourceInput)
    ensures input.name == Given(name) && input.location == Given(location)
    ensures input.kind.Undefined? && input.status.Undefined?
    ensures input.capacity.Null? <==> ParseInt(capacityText).None?
    ensures ParseInt(capacityText).Some? ==> input.capacity == Given(ParseInt(capacityText).value)
  {
    var capacity := match ParseInt(capacityText)
      case None => Null
      case Some(n) => Given(n);
    ResourceModel.ResourceInput(Given(name), Undefined, Given(location), capacity, Undefined)
  }

  /** Whatever the form holds, its body binds an undefined `type`, so the
      modelled createResource and updateResource both refuse it. */
  lemma FormBodyRefused(name: string, location: string, capacityText: string)
    ensures ResourceModel.CreateBindsUndefined(FormInput(name, location, capacityText))
    ensures ResourceModel.UpdateBindsUndefined(FormInput(name, location, capacityText))
  {
  }

  /** The saved entries as the page reads them back. */
  function AsRead(av: seq<Avail>): (entries: seq<Option<Avail>>)
    ensures |entries| == |av|
    ensures forall k :: 0 <= k < |av| ==> entries[k] == Some(av[k])
  {
    seq(|av|, k requires 0 <= k < |av| => Some(av[k]))
  }

  /** Every entry the form saves is valid, one per checked box. */
  lemma {:induction false} SavedEntriesValid(checked: seq<bool>, openTime: string, closeTime: string)
    ensures var entries := AsRead(FormAvailability(checked, openTime, closeTime));
      && |ValidDays(entries)| == |CheckedDays(checked)|
      && MissingDays(entries) == 0
  {
    var entries := AsRead(FormAvailability(checked, openTime, closeTime));
    assert forall a :: a in entries ==> IsValidEntry(a);
    FilterAll(entries, IsValidEntry);
    ValidDaysCount(entries);
  }

  /** Seven checked boxes are shown as "Mon-Sun" with the form's times. */
  lemma AllDaysShowMonSun(openTime: string, closeTime: string)
    ensures var av := FormAvailability([true, true, true, true, true, true, true], openTime, closeTime);
      FormatAvailability(Some(AsRead(av)))
        == "Mon-Sun" + ": " + FormatTime(Some(openTime)) + " - " + FormatTime(Some(closeTime))
  {
    var checked := [true, true, true, true, true, true, true];
    var entries := AsRead(FormAvailability(checked, openTime, closeTime));
    AllCheckedCount(checked);
    SavedEntriesValid(checked, openTime, closeTime);
    AvailabilityTimes(entries, 0, DayText);
  }

  /** Every box checked: one day per box. */
  lemma {:induction false} AllCheckedCount(checked: seq<bool>)
    requires forall i :: 0 <= i < |checked| ==> checked[i]
    ensures |CheckedDays(checked)| == |checked|
  {
    if checked != [] {
      var n := |checked| - 1;
      assert forall i :: 0 <= i < n ==> checked[..n][i] == checked[i];
      AllCheckedCount(checked[..n]);
    }
  }

  // ---------------------------------------------------------------------------
  // Utilisation bars and the popular-resources table
  // ---------------------------------------------------------------------------

  /** One resource of the utilisation reply. */
  datatype UsageRow = UsageRow(name: string, location: string, bookingCount: int, utilization: Option<int>)

  /** `r.utilization_percentage || 0`. */
  function ShownPct(r: UsageRow): (pct: int)
    ensures r.utilization.None? ==> pct == 0
    ensures r.utilization.Some? ==> pct == r.utilization.value
  {
    if r.utilization.None? then 0 else r.utilization.value
  }

  /** The level both colour classes are named after: 2 from 75, 1 from 50,
      0 below. */
  function PctLevel(pct: int): (l: nat)
    ensures l <= 2
    ensures l == 2 <==> pct >= 75
    ensures l == 1 <==> 50 <= pct < 75
  {
    if pct >= 75 then 2 else if pct >= 50 then 1 else 0
  }

  function LevelName(l: nat): string {
    if l == 2 then "high" else if l == 1 then "medium" else "low"
  }

  /** A colour class: the prefix ("bar-" for the bar, "percent-" for the
      percentage text) followed by the level, high from 75, medium from 50,
      low below. */
  function LevelClass(prefix: string, pct: int): (c: string)
    ensures c == prefix + "high" <==> pct >= 75
    ensures c == prefix + "medium" <==> 50 <= pct < 75
    ensures c == prefix + "low" <==> pct < 50
  {
    var name := LevelName(PctLevel(pct));
    SameStart(prefix, name, "high");
    SameStart(prefix, name, "medium");
    SameStart(prefix, name, "low");
    prefix + name
  }

  lemma SameStart(prefix: string, a: string, b: string)
    ensures prefix + a == prefix + b <==> a == b
  {
    if prefix + a == prefix + b {
      assert (prefix + a)[|prefix|..] == a && (prefix + b)[|prefix|..] == b;
    }
  }

  /** The level never drops as the percentage grows: a fuller resource is
      never shown low when an emptier one is not, nor an emptier one high
      when a fuller one is not. */
  lemma LevelClassMonotone(prefix: string, p: int, q: int)
    requires p <= q
    ensures PctLevel(p) <= PctLevel(q)
    ensures LevelClass(prefix, q) == prefix + "low" ==> LevelClass(prefix, p) == prefix + "low"
    ensures LevelClass(prefix, p) == prefix + "high" ==> LevelClass(prefix, q) == prefix + "high"
  {
  }

  /** `Math.max(pct, floor)`: the bar is never thinner than the floor, and
      exactly as wide as the percentage above it. */
  function BarWidth(pct: int, floor: int): (w: int)
    ensures w >= floor && w >= pct
    ensures w == pct || w == floor
  {
    if pct > floor then pct else floor
  }

  /** The comparator `(a, b) => b.booking_count - a.booking_count`, read as
      "a may come before b". */
  predicate ByCountDesc(a: UsageRow, b: UsageRow) {
    a.bookingCount >= b.bookingCount
  }

  /** `[...resources].sort(...).slice(0, 5)`: a sorted copy, cut to five. */
  function TopFive(resources: seq<UsageRow>): (top: seq<UsageRow>)
    ensures |top| == if |resources| < 5 then |resources| else 5
    ensures multiset(top) <= multiset(resources)
  {
    var s := SortBy(resources, ByCountDesc);
    var k := if |s| < 5 then |s| else 5;
    assert s == s[..k] + s[k..];
    s[..k]
  }

  /** The five shown are in descending order of bookings. */
  lemma TopFiveSorted(resources: seq<UsageRow>)
    ensures forall i :: 0 < i < |TopFive(resources)| ==>
      TopFive(resources)[i - 1].bookingCount >= TopFive(resources)[i].bookingCount
  {
    assert Total(ByCountDesc);
    SortBySorted(resources, ByCountDesc);
  }

  /** No resource left out has more bookings than any resource shown. */
  lemma TopFiveBest(resources: seq<UsageRow>)
    ensures forall y, x :: y in TopFive(resources) && x in multiset(resources) - multiset(TopFive(resources)) ==>
      y.bookingCount >= x.bookingCount
  {
    var s := SortBy(resources, ByCountDesc);
    var k := if |s| < 5 then |s| else 5;
    var top := TopFive(resources);
    assert top == s[..k];
    assert s == top + s[k..];
    assert multiset(resources) - multiset(top) == multiset(s[k..]);
    assert Total(ByCountDesc);
    SortBySorted(resources, ByCountDesc);
    forall y, x | y in top && x in s[k..]
      ensures y.bookingCount >= x.bookingCount
    {
      SortedSplit(s, k, y, x);
    }
  }

  /** In a sorted list, what comes before position `k` is at least what
      comes after. */
  lemma SortedSplit(s: seq<UsageRow>, k: nat, y: UsageRow, x: UsageRow)
    requires Sorted(s, ByCountDesc) && k <= |s|
    requires y in s[..k] && x in s[k..]
    ensures y.bookingCount >= x.bookingCount
  {
    assert Transitive(ByCountDesc);
    var i :| 0 <= i < k && s[..k][i] == y;
    var j :| 0 <= j < |s| - k && s[k..][j] == x;
    SortedPairwise(s, ByCountDesc, i, k + j);
  }

  datatype PopularRow = PopularRow(name: string, location: string, bookingCount: int, barClass: string, width: int, pct: int)

  datatype PopularTable = NoBookingData | PopularRows(rows: seq<PopularRow>)

  function PopularRowOf(r: UsageRow): PopularRow {
    var pct := ShownPct(r);
    PopularRow(r.name, r.location, r.bookingCount, LevelClass("bar-", pct), BarWidth(pct, 5), pct)
  }

  /** `renderPopularResources`: the placeholder for no resources, otherwise
      one row per resource of the top five. */
  function RenderPopular(resources: seq<UsageRow>): (t: PopularTable)
    ensures t == NoBookingData <==> resources == []
    ensures t.PopularRows? ==> 1 <= |t.rows| <= 5 && |t.rows| <= |resources|
    ensures t.PopularRows? ==> forall i :: 0 <= i < |t.rows| ==> t.rows[i].width >= 5
  {
    if resources == [] then NoBookingData
    else
      var top := TopFive(resources);
      PopularRows(seq(|top|, i requires 0 <= i < |top| => PopularRowOf(top[i])))
  }

  /** The comparator of `renderUtilizationBars`, on the shown percentage. */
  predicate ByPctDesc(a: UsageRow, b: UsageRow) {
    ShownPct(a) >= ShownPct(b)
  }

  datatype UsageBar = UsageBar(name: string, location: string, pct: int, pctClass: string, barClass: string, width: int)

  datatype UsageBars = NoUtilizationData | Bars(bars: seq<UsageBar>)

  function UsageBarOf(r: UsageRow): UsageBar {
    var pct := ShownPct(r);
    UsageBar(r.name, r.location, pct, LevelClass("percent-", pct), LevelClass("bar-", pct), BarWidth(pct, 2))
  }

  /** `renderUtilizationBars`: every resource, highest percentage first. */
  function RenderUsageBars(resources: seq<UsageRow>): (b: UsageBars)
    ensures b == NoUtilizationData <==> resources == []
    ensures b.Bars? ==> |b.bars| == |resources|
  {
    if resources == [] then NoUtilizationData
    else
      var s := SortBy(resources, ByPctDesc);
      Bars(seq(|s|, i requires 0 <= i < |s| => UsageBarOf(s[i])))
  }

  /** The bars list each resource once, in descending order of the shown
      percentage, each at least 2 wide. */
  lemma UsageBarsOrdered(resources: seq<UsageRow>)
    requires resources != []
    ensures var bars := RenderUsageBars(resources).bars;
      && (forall i :: 0 < i < |bars| ==> bars[i - 1].pct >= bars[i].pct)
      && (forall i :: 0 <= i < |bars| ==> bars[i].width >= 2 && bars[i].width >= bars[i].pct)
      && multiset(SortBy(resources, ByPctDesc)) == multiset(resources)
  {
    assert Total(ByPctDesc);
    SortBySorted(resources, ByPctDesc);
  }

  // ---------------------------------------------------------------------------
  // Labels
  // ---------------------------------------------------------------------------

  /** `capitalizeFirst`: "" stays "", otherwise the first character is
      upper-cased (ASCII) and the rest is kept. */
  function CapitalizeFirst(s: string): (r: string)
    ensures |r| == |s|
    ensures s != [] ==> r[0] == UpperChar(s[0]) && r[1..] == s[1..]
  {
    if s == [] then [] else [UpperChar(s[0])] + s[1..]
  }

  lemma CapitalizeIdempotent(s: string)
    ensures CapitalizeFirst(CapitalizeFirst(s)) == CapitalizeFirst(s)
  {
  }

  /** The text of `updatePendingCount`. */
  function PendingLabel(count: nat): string {
    NatToString(count) + " booking" + (if count != 1 then "s" else "") + " awaiting approval"
  }

  /** The label starts with the count, which reads back. */
  lemma PendingLabelCount(count: nat)
    ensures DigitPrefix(PendingLabel(count)) == NatToString(count)
    ensures DigitsValue(DigitPrefix(PendingLabel(count))) == count
  {
    var digits := NatToString(count);
    var text := PendingLabel(count);
    var n := |digits|;
    assert text[..n] == digits && text[n] == ' ';
    DigitPrefixOf(text, n);
    NatToStringRoundTrip(count);
  }

  /** The word after the count is plural exactly when the count is not 1. */
  lemma PendingLabelPlural(count: nat)
    ensures var n := |NatToString(count)|;
      PendingLabel(count)[n..n + 9] == " bookings" <==> count != 1
  {
    var digits := NatToString(count);
    var text := PendingLabel(count);
    var n := |digits|;
    if count == 1 {
      assert text[n..n + 9][8] == ' ' != " bookings"[8];
    } else {
      assert text == digits + " bookings" + " awaiting approval";
    }
  }
}
