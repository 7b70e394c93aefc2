/** Volume stepping (htd/htd.c): the hardware only knows one step up and one step down; a requested volume is reached
    by the right number of steps, for one zone or for a group of zones in interleaved rounds. */
module Volume {

  const MAX_ZONES := 6
  const MAX_VOL_VALUE := 60
  const MIN_HW_VOL_VAL := 0xC3

  // The hardware

  /** The hardware has the levels 0 to 61, and stays at the first and last. */
  type Level = l: int | 0 <= l <= 61

  /** The value it reports for a level: 0xC3 to 0xFF, and 0 for the loudest. */
  function Reported(l: Level): (b: int)
    ensures 0 <= b < 256
  {
    if l == 61 then 0 else MIN_HW_VOL_VAL + l
  }

  function Stepped(l: Level, up: bool): Level {
    if up then (if l < 61 then l + 1 else l) else (if l > 0 then l - 1 else l)
  }

  function Steps(l: Level, up: bool, n: nat): Level {
    if n == 0 then l else Stepped(Steps(l, up, n - 1), up)
  }

  // The code

  /** convertVolValForDisplay. The reported values 0xC4 and 0xC5 are both shown as 1. */
  function VolValForDisplay(hwVolVal: int): int {
    if hwVolVal == 0 then MAX_VOL_VALUE
    else if hwVolVal <= MIN_HW_VOL_VAL then 0
    else if hwVolVal == MIN_HW_VOL_VAL + 1 then 1
    else hwVolVal - (MIN_HW_VOL_VAL + 1)
  }

  /** convertDispVolToHwVolVal. */
  function DispVolToHwVolVal(dispVolVal: int): int {
    if dispVolVal >= MAX_VOL_VALUE then 0
    else if dispVolVal == 0 then MIN_HW_VOL_VAL
    else dispVolVal + (MIN_HW_VOL_VAL + 1)
  }

  // What a request is for

  /** The requests that can be shown: 0 to 60. */
  function Clamp(v: int): int {
    if v < 0 then 0 else if v > MAX_VOL_VALUE then MAX_VOL_VALUE else v
  }

  /** The level at which a request leaves a zone: where it is when that is already shown as requested. */
  function Settled(l: Level, v: int): Level {
    var c := Clamp(v);
    if VolValForDisplay(Reported(l)) == c then l else if c == 0 then 0 else c + 1
  }

  /** The reported values go up one by one to 0xFE and then to 0; what they show goes up from 0 to 60, one by one but
      for the levels 1 and 2, which show the same. */
  lemma LevelsShown(l: Level)
    ensures Reported(0) == 0xC3 && Reported(61) == 0 && (l < 60 ==> Reported(l + 1) == Reported(l) + 1)
    ensures VolValForDisplay(Reported(0)) == 0 && VolValForDisplay(Reported(61)) == 60
    ensures l < 61 ==>
              VolValForDisplay(Reported(l + 1)) == VolValForDisplay(Reported(l)) + if l == 1 then 0 else 1
  {}

  lemma {:induction false} StepsClosed(l: Level, up: bool, n: nat)
    ensures Steps(l, up, n) == if up then (if l + n < 61 then l + n else 61) else (if l - n > 0 then l - n else 0)
  {
    if n > 0 {
      StepsClosed(l, up, n - 1);
    }
  }

  /** A zone that has settled shows the request. */
  lemma SettledShows(l: Level, v: int)
    ensures VolValForDisplay(Reported(Settled(l, v))) == Clamp(v)
  {}

  /** So many steps settle a zone on the request, and so do the first 61 of them when there are more; for a request that
      can be shown there are not. */
  predicate Leads(l: Level, v: int, n: int, up: bool) {
    && n >= 0
    && Steps(l, up, n) == Settled(l, v)
    && (n > 61 ==> Steps(l, up, 61) == Settled(l, v))
    && (0 <= v <= MAX_VOL_VALUE ==> n <= 61)
  }

  /** The steps that sendVolToHW and sendGroupVolToHW compute, how many and whether up, settle a zone of which they know
      the reported value, although one volume has two levels. */
  method VolDelta(curHwVolVal: int, newVolVal: int) returns (volDelta: int, isVolUp: bool)
    ensures forall l :: curHwVolVal == Reported(l) ==> Leads(l, newVolVal, volDelta, isVolUp)
    ensures volDelta >= 0
  {
    var curVolVal := VolValForDisplay(curHwVolVal);
    if newVolVal > curVolVal {
      volDelta := newVolVal - curVolVal;
      if curVolVal == 0 && newVolVal >= 1 {
        volDelta := volDelta + 1;
      }
      if curVolVal == 1 && curHwVolVal == MIN_HW_VOL_VAL + 1 {
        volDelta := volDelta + 1;
      }
      isVolUp := true;
    } else {
      volDelta := curVolVal - newVolVal;
      if newVolVal == 0 && curHwVolVal == MIN_HW_VOL_VAL + 2 {
        volDelta := volDelta + 1;
      }
      if newVolVal == 0 && curVolVal >= 2 {
        volDelta := volDelta + 1;
      }
      isVolUp := false;
    }
    forall l: Level | curHwVolVal == Reported(l)
      ensures Leads(l, newVolVal, volDelta, isVolUp)
    {
      StepsClosed(l, isVolUp, volDelta);
      StepsClosed(l, isVolUp, 61);
    }
  }

  // The controller

  function Zmask(i: nat): bv8
    requires i < MAX_ZONES
  {
    [0x01, 0x02, 0x04, 0x08, 0x10, 0x20][i]
  }

  predicate ZoneSelected(buttonStates: bv8, i: nat)
    requires i < MAX_ZONES
  {
    buttonStates & Zmask(i) != 0
  }

  /** Zone i has bit i of the button states. */
  lemma ZoneHasBit(buttonStates: bv8, i: nat)
    requires i < MAX_ZONES
    ensures MAX_ZONES == 6
    ensures ZoneSelected(buttonStates, i) <==> (buttonStates >> i) % 2 == 1
  {}

  /** A volume requested for the zones selected at the time. */
  datatype Request = Request(buttonStates: bv8, newVolVal: int)

  /** A zone ends showing the last volume requested while it was selected; if it never was, it ends where it was. */
  predicate Serves(requests: seq<Request>, zone: nat, start: Level, end: Level)
    requires zone < MAX_ZONES
  {
    if requests == [] then end == start
    else
      var last := requests[|requests| - 1];
      if ZoneSelected(last.buttonStates, zone) then VolValForDisplay(Reported(end)) == Clamp(last.newVolVal)
      else Serves(requests[..|requests| - 1], zone, start, end)
  }

  /** The level of a zone that has made the given number of its steps, up to all of them, one in a round. */
  function After(start: Level, delta: nat, up: bool, selected: bool, rounds: nat): Level {
    if !selected then start else Steps(start, up, if delta < rounds then delta else rounds)
  }

  class Controller {
    // The hardware level of every zone, and the value that g_zoneInfo has for it.
    const hw: array<Level>
    const volValue: array<int>
    var buttonStates: bv8

    constructor (levels: seq<Level>, buttons: bv8)
      requires |levels| == MAX_ZONES
      ensures Valid() && hw[..] == levels && buttonStates == buttons
    {
      hw := new Level[MAX_ZONES](i requires 0 <= i < MAX_ZONES => levels[i]);
      volValue := new int[MAX_ZONES](i requires 0 <= i < MAX_ZONES => Reported(levels[i]));
      buttonStates := buttons;
    }

    /** The zone data matches the hardware. */
    ghost predicate Valid()
      reads this, hw, volValue
    {
      && hw.Length == volValue.Length == MAX_ZONES
      && forall i :: 0 <= i < MAX_ZONES ==> volValue[i] == Reported(hw[i])
    }

    /** sendCMD_0x04 with the code for volume up or down: one step of one zone. */
    method SendStep(zone: nat, up: bool)
      requires hw.Length == MAX_ZONES && zone < MAX_ZONES
      modifies hw
      ensures hw[..] == old(hw[..])[zone := Stepped(old(hw[zone]), up)]
    {
      hw[zone] := Stepped(hw[zone], up);
    }

    /** sendCMD_0x06: the values of all zones are read from the hardware. */
    method Refresh()
      requires hw.Length == volValue.Length == MAX_ZONES
      modifies volValue
      ensures Valid()
    {
      forall i | 0 <= i < MAX_ZONES {
        volValue[i] := Reported(hw[i]);
      }
    }

    /** sendVolToHW. */
    method SendVol(zone: nat, newVolVal: int)
      requires Valid() && zone < MAX_ZONES
      modifies hw, volValue
      ensures Valid() && hw[..] == old(hw[..])[zone := Settled(old(hw[zone]), newVolVal)]
    {
      var volDelta, isVolUp := VolDelta(volValue[zone], newVolVal);
      assert Leads(hw[zone], newVolVal, volDelta, isVolUp);
      if VolValForDisplay(volValue[zone]) == newVolVal {
        return;
      }
      var i := 0;
      while i < volDelta
        invariant 0 <= i <= volDelta && hw[..] == old(hw[..])[zone := Steps(old(hw[zone]), isVolUp, i)]
      {
        SendStep(zone, isVolUp);
        i := i + 1;
      }
      Refresh();
    }

    /** sendGroupVolToHW: every round gives one step to each selected zone that still needs one. */
    method SendGroupVol(newVolVal: int)
      requires Valid()
      modifies hw, volValue
      ensures Valid()
      ensures forall j :: 0 <= j < MAX_ZONES ==>
                hw[j] == if ZoneSelected(buttonStates, j) then Settled(old(hw[j]), newVolVal) else old(hw[j])
    {
      var volDelta := new int[MAX_ZONES];
      var isVolUp := new bool[MAX_ZONES];
      ghost var start := hw[..];
      var i := 0;
      while i < MAX_ZONES
        invariant 0 <= i <= MAX_ZONES && hw[..] == start && Valid()
        invariant forall j :: 0 <= j < i ==> Leads(start[j], newVolVal, volDelta[j], isVolUp[j])
      {
        volDelta[i], isVolUp[i] := VolDelta(volValue[i], newVolVal);
        assert Leads(start[i], newVolVal, volDelta[i], isVolUp[i]);
        i := i + 1;
      }
      i := 0;
      while i <= MAX_VOL_VALUE
        invariant 0 <= i <= MAX_VOL_VALUE + 1
        invariant forall j :: 0 <= j < MAX_ZONES ==> Leads(start[j], newVolVal, volDelta[j], isVolUp[j])
        invariant forall j :: 0 <= j < MAX_ZONES ==>
                    hw[j] == After(start[j], volDelta[j], isVolUp[j], ZoneSelected(buttonStates, j), i)
      {
        Round(volDelta, isVolUp, start, i);
        i := i + 1;
      }
      forall j | 0 <= j < MAX_ZONES
        ensures hw[j] == if ZoneSelected(buttonStates, j) then Settled(start[j], newVolVal) else start[j]
      {
        assert Leads(start[j], newVolVal, volDelta[j], isVolUp[j]);
      }
      Refresh();
    }

    /** One round over the zones. */
    method Round(volDelta: array<int>, isVolUp: array<bool>, ghost start: seq<Level>, i: nat)
      requires hw.Length == MAX_ZONES && volDelta.Length == isVolUp.Length == MAX_ZONES == |start|
      requires forall j :: 0 <= j < MAX_ZONES ==> volDelta[j] >= 0
      requires forall j :: 0 <= j < MAX_ZONES ==>
                 hw[j] == After(start[j], volDelta[j], isVolUp[j], ZoneSelected(buttonStates, j), i)
      modifies hw
      ensures forall j :: 0 <= j < MAX_ZONES ==>
                hw[j] == After(start[j], volDelta[j], isVolUp[j], ZoneSelected(buttonStates, j), i + 1)
    {
      var j, zmask: bv8 := 0, 0x01;
      while j < MAX_ZONES
        invariant 0 <= j <= MAX_ZONES && (j < MAX_ZONES ==> zmask == Zmask(j))
        invariant forall k :: 0 <= k < MAX_ZONES ==>
                    hw[k] == After(start[k], volDelta[k], isVolUp[k], ZoneSelected(buttonStates, k),
                                   if k < j then i + 1 else i)
      {
        if buttonStates & zmask != 0 {
          if volDelta[j] > i {
            SendStep(j, isVolUp[j]);
          }
        }
        zmask := zmask << 1;
        j := j + 1;
      }
    }

    /** Requests one after the other, with any selection of zones for each. */
    method Serve(requests: seq<Request>)
      requires Valid()
      modifies this, hw, volValue
      ensures Valid()
      ensures forall j :: 0 <= j < MAX_ZONES ==> Serves(requests, j, old(hw[j]), hw[j])
    {
      var i := 0;
      while i < |requests|
        invariant 0 <= i <= |requests| && Valid()
        invariant forall j :: 0 <= j < MAX_ZONES ==> Serves(requests[..i], j, old(hw[j]), hw[j])
      {
        ghost var before := hw[..];
        buttonStates := requests[i].buttonStates;
        SendGroupVol(requests[i].newVolVal);
        forall j | 0 <= j < MAX_ZONES
          ensures Serves(requests[..i + 1], j, old(hw[j]), hw[j])
        {
          assert requests[..i + 1][..i] == requests[..i] && hw[j] == hw[..][j];
          SettledShows(before[j], requests[i].newVolVal);
        }
        i := i + 1;
      }
      assert requests[..i] == requests;
    }
  }

  /** Two controllers in the same state, one with sendGroupVolToHW, the other with sendVolToHW for each selected zone,
      in any order: the interleaved rounds leave the hardware and the zone data as the separate runs do. */
  method GroupAndSeparate(group: Controller, separate: Controller, newVolVal: int)
    requires group.Valid() && separate.Valid()
    requires {group.hw} !! {separate.hw} && {group.volValue} !! {separate.volValue}
    requires group.hw[..] == separate.hw[..] && group.buttonStates == separate.buttonStates
    modifies group.hw, group.volValue, separate.hw, separate.volValue
    ensures group.Valid() && separate.Valid()
    ensures group.hw[..] == separate.hw[..] && group.volValue[..] == separate.volValue[..]
  {
    ghost var start := group.hw[..];
    var selected := set j | 0 <= j < MAX_ZONES && ZoneSelected(separate.buttonStates, j);
    group.SendGroupVol(newVolVal);
    ghost var settled := group.hw[..];
    var left := selected;
    while left != {}
      invariant left <= selected && separate.Valid() && group.Valid() && group.hw[..] == settled
      invariant forall j :: 0 <= j < MAX_ZONES ==>
                  separate.hw[j] == if j in selected && j !in left then Settled(start[j], newVolVal) else start[j]
      decreases |left|
    {
      var j :| j in left;
      left := left - {j};
      separate.SendVol(j, newVolVal);
    }
    assert forall j :: 0 <= j < MAX_ZONES ==> group.hw[j] == settled[j] == separate.hw[j];
  }

  /** The value for a displayed volume is displayed as that volume. */
  lemma DisplayRoundTrip(v: nat)
    ensures VolValForDisplay(DispVolToHwVolVal(v)) == Clamp(v)
  {}

  /** A reported value comes back from its display unless it is the first of the two shown as 1. */
  lemma ReportRoundTrip(l: Level)
    ensures DispVolToHwVolVal(VolValForDisplay(Reported(l))) == Reported(l) <==> l != 1
  {}
}
