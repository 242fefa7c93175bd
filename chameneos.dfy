/** The chameneos benchmark of src/caf/savina/savina_06_chameneos.cpp: the
    colour table, the chameneo's meeting counter and the mall's pairing rule.

    Every handler takes the sender the runtime would report and returns the
    messages it sends, each with its destination and the sender the receiver
    will see. */
module Chameneos {
  import opened Wrappers

  datatype Color = Red | Blue | Yellow | Faded

  /** `chameneos_helper::complement`: two equal colours stay, two different
      ones give the third, and faded wins. */
  function Complement(color: Color, other: Color): (r: Color)
    ensures r == Faded <==> color == Faded || other == Faded
    ensures color != Faded && color == other ==> r == color
    ensures color != Faded && other != Faded && color != other ==>
      r != color && r != other
  {
    match color
    case Red => (match other
      case Red => Red
      case Yellow => Blue
      case Blue => Yellow
      case Faded => Faded)
    case Yellow => (match other
      case Red => Blue
      case Yellow => Yellow
      case Blue => Red
      case Faded => Faded)
    case Blue => (match other
      case Red => Yellow
      case Yellow => Red
      case Blue => Blue
      case Faded => Faded)
    case Faded => Faded
  }

  /** Both parties of a meeting end with the same colour. */
  lemma ComplementSymmetric(color: Color, other: Color)
    ensures Complement(color, other) == Complement(other, color)
  {}

  /** `faded_color`. */
  function FadedColor(): (r: Color)
    ensures r == Faded
  {
    Faded
  }

  /** The mall spawns chameneo i with the colour numbered i % 3 in the
      enumeration, so never faded. */
  function InitialColor(i: nat): (r: Color)
    ensures r != Faded
    ensures i % 3 == 0 <==> r == Red
    ensures i % 3 == 1 <==> r == Blue
  {
    if i % 3 == 0 then Red else if i % 3 == 1 then Blue else Yellow
  }

  datatype Actor = Mall | Creature(id: nat)

  datatype Msg = Meet(color: Color) | Change(color: Color) | MeetingCount(count: int) | Exit

  /** A message on its way: destination, the sender the receiver sees, and
      the payload. */
  datatype Send = Send(to: Actor, from: Actor, msg: Msg)

  class Chameneo {
    const id: nat
    var meetings: nat
    var color: Color
    var quit: bool

    constructor (id: nat, color: Color)
      ensures this.id == id && this.color == color && meetings == 0 && !quit
    {
      this.id := id;
      this.color := color;
      meetings := 0;
      quit := false;
    }

    /** The first message: ask the mall for a meeting. */
    method Start() returns (sends: seq<Send>)
      ensures sends == [Send(Mall, Creature(id), Meet(color))]
    {
      sends := [Send(Mall, Creature(id), Meet(color))];
    }

    /** `meet_msg`: take the complement, count the meeting, tell the sender
        the new colour and ask the mall again. */
    method OnMeet(sender: Actor, other: Color) returns (sends: seq<Send>)
      modifies this
      ensures color == Complement(old(color), other)
      ensures meetings == old(meetings) + 1 && quit == old(quit)
      ensures sends == [Send(sender, Creature(id), Change(color)), Send(Mall, Creature(id), Meet(color))]
    {
      color := Complement(color, other);
      meetings := meetings + 1;
      sends := [Send(sender, Creature(id), Change(color)), Send(Mall, Creature(id), Meet(color))];
    }

    /** `change_msg`: adopt the colour, count the meeting, ask the mall again. */
    method OnChange(newColor: Color) returns (sends: seq<Send>)
      modifies this
      ensures color == newColor
      ensures meetings == old(meetings) + 1 && quit == old(quit)
      ensures sends == [Send(Mall, Creature(id), Meet(color))]
    {
      color := newColor;
      meetings := meetings + 1;
      sends := [Send(Mall, Creature(id), Meet(color))];
    }

    /** `exit_msg`: fade, report the meeting count to the sender and quit. */
    method OnExit(sender: Actor) returns (sends: seq<Send>)
      modifies this
      ensures color == Faded && quit
      ensures meetings == old(meetings)
      ensures sends == [Send(sender, Creature(id), MeetingCount(meetings))]
    {
      color := FadedColor();
      sends := [Send(sender, Creature(id), MeetingCount(meetings))];
      quit := true;
    }
  }

  class MallState {
    const numChameneos: int
    /** The meetings still to be arranged. */
    var n: int
    var waiting: Option<Actor>
    var sumMeetings: int
    var numFaded: int
    var quit: bool

    constructor (n: int, numChameneos: int)
      ensures this.n == n && this.numChameneos == numChameneos
      ensures waiting == None && sumMeetings == 0 && numFaded == 0 && !quit
    {
      this.n := n;
      this.numChameneos := numChameneos;
      waiting := None;
      sumMeetings := 0;
      numFaded := 0;
      quit := false;
    }

    /** `meeting_count_msg`: add up the counts; quit once every chameneo has
        faded. */
    method OnMeetingCount(count: int)
      modifies this
      ensures numFaded == old(numFaded) + 1 && sumMeetings == old(sumMeetings) + count
      ensures quit == (old(quit) || numFaded == numChameneos)
      ensures n == old(n) && waiting == old(waiting)
    {
      numFaded := numFaded + 1;
      sumMeetings := sumMeetings + count;
      if numFaded == numChameneos {
        quit := true;
      }
    }

    /** `meet_msg`: while meetings remain, the first chameneo waits and the
        second one's request is passed on to it, sent by the mall itself;
        once none remain, the sender is told to exit. */
    method OnMeet(sender: Actor, c: Color) returns (sends: seq<Send>)
      modifies this
      ensures old(n) > 0 && old(waiting).None? ==>
        waiting == Some(sender) && n == old(n) && sends == []
      ensures old(n) > 0 && old(waiting).Some? ==>
        && waiting == None && n == old(n) - 1
        && sends == [Send(old(waiting).value, Mall, Meet(c))]
      ensures old(n) <= 0 ==>
        waiting == old(waiting) && n == old(n) && sends == [Send(sender, Mall, Exit)]
      ensures old(n) >= 0 ==> n >= 0
      ensures sumMeetings == old(sumMeetings) && numFaded == old(numFaded) && quit == old(quit)
    {
      if n > 0 {
        if waiting.None? {
          waiting := Some(sender);
          sends := [];
        } else {
          n := n - 1;
          sends := [Send(waiting.value, Mall, Meet(c))];
          waiting := None;
        }
      } else {
        sends := [Send(sender, Mall, Exit)];
      }
    }

    /** The pairing as the commented-out `sender` field of `meet_msg` intends
        it: the request reaches the waiting chameneo as sent by its partner. */
    method OnMeetForwarded(sender: Actor, c: Color) returns (sends: seq<Send>)
      modifies this
      ensures old(n) > 0 && old(waiting).None? ==>
        waiting == Some(sender) && n == old(n) && sends == []
      ensures old(n) > 0 && old(waiting).Some? ==>
        && waiting == None && n == old(n) - 1
        && sends == [Send(old(waiting).value, sender, Meet(c))]
      ensures old(n) <= 0 ==>
        waiting == old(waiting) && n == old(n) && sends == [Send(sender, Mall, Exit)]
      ensures old(n) >= 0 ==> n >= 0
      ensures sumMeetings == old(sumMeetings) && numFaded == old(numFaded) && quit == old(quit)
    {
      if n > 0 {
        if waiting.None? {
          waiting := Some(sender);
          sends := [];
        } else {
          n := n - 1;
          sends := [Send(waiting.value, sender, Meet(c))];
          waiting := None;
        }
      } else {
        sends := [Send(sender, Mall, Exit)];
      }
    }
  }

  /** Two chameneos meet through the mall as written: the waiting one answers
      its `change_msg` to the mall, so its partner hears nothing and never
      asks for another meeting. */
  method MeetingAsWritten(mall: MallState, a: Chameneo, b: Chameneo) returns (replies: seq<Send>)
    requires mall.n > 0 && mall.waiting.None? && a != b && a.id != b.id
    modifies mall, a
    ensures forall k :: 0 <= k < |replies| ==> replies[k].to == Mall
    ensures a.meetings == old(a.meetings) + 1 && b.meetings == old(b.meetings)
  {
    var first := mall.OnMeet(Creature(a.id), a.color);
    var second := mall.OnMeet(Creature(b.id), b.color);
    assert second == [Send(Creature(a.id), Mall, Meet(b.color))];
    replies := a.OnMeet(second[0].from, second[0].msg.color);
  }

  /** With the partner kept as sender, the partner gets the new colour and
      both chameneos count the meeting and leave it with the same colour. */
  method MeetingForwarded(mall: MallState, a: Chameneo, b: Chameneo) returns (toPartner: seq<Send>)
    requires mall.n > 0 && mall.waiting.None? && a != b && a.id != b.id
    modifies mall, a, b
    ensures toPartner == [Send(Creature(b.id), Creature(a.id), Change(a.color))]
    ensures a.meetings == old(a.meetings) + 1 && b.meetings == old(b.meetings) + 1
    ensures a.color == b.color == Complement(old(a.color), old(b.color))
    ensures old(a.color) != Faded && old(b.color) != Faded && old(a.color) != old(b.color) ==>
      a.color != old(a.color) && b.color != old(b.color) && a.color != Faded
  {
    var first := mall.OnMeetForwarded(Creature(a.id), a.color);
    var second := mall.OnMeetForwarded(Creature(b.id), b.color);
    var replies := a.OnMeet(second[0].from, second[0].msg.color);
    toPartner := if replies[0].to == Creature(b.id) then [replies[0]] else [];
    var again := b.OnChange(toPartner[0].msg.color);
  }
}
