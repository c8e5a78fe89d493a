/**
 * The fixed teaching grid of `getTimeSlots` (TimetableGenerator.tsx, lines
 * 582-604): six one-hour windows per shift, with a 15-minute gap in the middle
 * of each half and the meal break left out of the list.
 */
module TimeGrid {
  import opened Wrappers
  import opened Strings
  import opened Clock
  import opened Entities
  import opened Seqs

  /** `a` is a nonempty window that ends no later than `b` starts. */
  predicate Before(a: Window, b: Window) {
    a.start < a.end && a.end <= b.start
  }

  /** Every window ends before each later one starts. */
  predicate Chain(ws: seq<Window>) {
    forall i, j :: 0 <= i < j < |ws| ==> Before(ws[i], ws[j])
  }

  function GetTimeSlots(shift: Shift): (r: seq<Window>)
    ensures |r| == 6
    ensures forall i :: 0 <= i < |r| ==> r[i].end == r[i].start + 60 && r[i].end <= 24 * 60
    ensures Chain(r)
  {
    match shift
    case Morning =>
      [Window(540, 600), Window(600, 660), Window(675, 735), Window(735, 795), Window(855, 915), Window(915, 975)]
    case Evening =>
      [Window(840, 900), Window(900, 960), Window(975, 1035), Window(1035, 1095), Window(1140, 1200), Window(1200, 1260)]
  }

  /** The "HH:MM" labels the source writes for each window. */
  function Labels(shift: Shift): seq<(string, string)> {
    match shift
    case Morning =>
      [("09:00", "10:00"), ("10:00", "11:00"), ("11:15", "12:15"), ("12:15", "13:15"), ("14:15", "15:15"), ("15:15", "16:15")]
    case Evening =>
      [("14:00", "15:00"), ("15:00", "16:00"), ("16:15", "17:15"), ("17:15", "18:15"), ("19:00", "20:00"), ("20:00", "21:00")]
  }

  lemma MorningLabelsAreFormatted(i: nat)
    requires i < 6
    ensures Labels(Morning)[i] == (FormatTime(GetTimeSlots(Morning)[i].start), FormatTime(GetTimeSlots(Morning)[i].end))
  {
    var l := Labels(Morning)[i];
    var w := GetTimeSlots(Morning)[i];
    if i == 0 {
      assert l == ("09:00", "10:00") && w == Window(540, 600);
      assert Pad2(0) == "00" && Pad2(9) == "09" && Pad2(10) == "10";
      assert FormatTime(540) == "09:00" && FormatTime(600) == "10:00";
    } else if i == 1 {
      assert l == ("10:00", "11:00") && w == Window(600, 660);
      assert Pad2(0) == "00" && Pad2(10) == "10" && Pad2(11) == "11";
      assert FormatTime(600) == "10:00" && FormatTime(660) == "11:00";
    } else if i == 2 {
      assert l == ("11:15", "12:15") && w == Window(675, 735);
      assert Pad2(11) == "11" && Pad2(12) == "12" && Pad2(15) == "15";
      assert FormatTime(675) == "11:15" && FormatTime(735) == "12:15";
    } else if i == 3 {
      assert l == ("12:15", "13:15") && w == Window(735, 795);
      assert Pad2(12) == "12" && Pad2(13) == "13" && Pad2(15) == "15";
      assert FormatTime(735) == "12:15" && FormatTime(795) == "13:15";
    } else if i == 4 {
      assert l == ("14:15", "15:15") && w == Window(855, 915);
      assert Pad2(14) == "14" && Pad2(15) == "15";
      assert FormatTime(855) == "14:15" && FormatTime(915) == "15:15";
    } else {
      assert l == ("15:15", "16:15") && w == Window(915, 975);
      assert Pad2(15) == "15" && Pad2(16) == "16";
      assert FormatTime(915) == "15:15" && FormatTime(975) == "16:15";
    }
  }

  lemma EveningLabelsAreFormatted(i: nat)
    requires i < 6
    ensures Labels(Evening)[i] == (FormatTime(GetTimeSlots(Evening)[i].start), FormatTime(GetTimeSlots(Evening)[i].end))
  {
    var l := Labels(Evening)[i];
    var w := GetTimeSlots(Evening)[i];
    if i == 0 {
      assert l == ("14:00", "15:00") && w == Window(840, 900);
      assert Pad2(0) == "00" && Pad2(14) == "14" && Pad2(15) == "15";
      assert FormatTime(840) == "14:00" && FormatTime(900) == "15:00";
    } else if i == 1 {
      assert l == ("15:00", "16:00") && w == Window(900, 960);
      assert Pad2(0) == "00" && Pad2(15) == "15" && Pad2(16) == "16";
      assert FormatTime(900) == "15:00" && FormatTime(960) == "16:00";
    } else if i == 2 {
      assert l == ("16:15", "17:15") && w == Window(975, 1035);
      assert Pad2(15) == "15" && Pad2(16) == "16" && Pad2(17) == "17";
      assert FormatTime(975) == "16:15" && FormatTime(1035) == "17:15";
    } else if i == 3 {
      assert l == ("17:15", "18:15") && w == Window(1035, 1095);
      assert Pad2(15) == "15" && Pad2(17) == "17" && Pad2(18) == "18";
      assert FormatTime(1035) == "17:15" && FormatTime(1095) == "18:15";
    } else if i == 4 {
      assert l == ("19:00", "20:00") && w == Window(1140, 1200);
      assert Pad2(0) == "00" && Pad2(19) == "19" && Pad2(20) == "20";
      assert FormatTime(1140) == "19:00" && FormatTime(1200) == "20:00";
    } else {
      assert l == ("20:00", "21:00") && w == Window(1200, 1260);
      assert Pad2(0) == "00" && Pad2(20) == "20" && Pad2(21) == "21";
      assert FormatTime(1200) == "20:00" && FormatTime(1260) == "21:00";
    }
  }

  /** Windows in minutes are exactly what `timeToMinutes` makes of the source's labels. */
  lemma GetTimeSlotsMatchLabels(shift: Shift)
    ensures |Labels(shift)| == |GetTimeSlots(shift)|
    ensures forall i :: 0 <= i < |Labels(shift)| ==>
      TimeToMinutes(Labels(shift)[i].0) == Some(GetTimeSlots(shift)[i].start) &&
      TimeToMinutes(Labels(shift)[i].1) == Some(GetTimeSlots(shift)[i].end)
  {
    var ls, ws := Labels(shift), GetTimeSlots(shift);
    forall i | 0 <= i < |ls|
      ensures TimeToMinutes(ls[i].0) == Some(ws[i].start) && TimeToMinutes(ls[i].1) == Some(ws[i].end)
    {
      if shift == Morning { MorningLabelsAreFormatted(i); } else { EveningLabelsAreFormatted(i); }
      TimeToMinutesOfFormat(ws[i].start);
      TimeToMinutesOfFormat(ws[i].end);
    }
  }

  /** Two windows taken from one shift's grid either coincide or do not overlap. */
  lemma GridWindowsDisjoint(shift: Shift, a: Window, b: Window)
    requires a in GetTimeSlots(shift) && b in GetTimeSlots(shift)
    ensures a == b || !Overlap(a, b)
  {
  }

  /** A sub-list of a chain, taken in order, is still a chain. */
  lemma ChainFilter(ws: seq<Window>, p: Window -> bool)
    requires Chain(ws)
    ensures Chain(Filter(ws, p))
  {
    FilterKeepsOrderedPairs(ws, p, Before);
  }
}
