/** The two-handed navigation tool's mode machine: one button on each of
    two devices; one held button moves the world with its device, two held
    buttons scale it. Transformations are left abstract: a frame only says
    which device drives the navigation and whether scaling applies. */
module TwoHandedNavigation {

  datatype Mode = Idle | Moving | Scaling

  /** The mode, the device whose motion drives the navigation, and whether
      the tool holds the navigation (activate() succeeded and deactivate()
      has not run since). */
  datatype Nav = Nav(mode: Mode, movingDevice: int, active: bool)

  /** The tool layout: two devices, one button each. */
  const NumDevices: int := 2

  predicate IsDevice(d: int)
  {
    0 <= d < NumDevices
  }

  /** A new tool is idle. The moving-device index is not initialised; any
      value stands for it. */
  function Create(anyIndex: int): (nav: Nav)
    ensures nav.mode == Idle && !nav.active
  {
    Nav(Idle, anyIndex, false)
  }

  /** buttonCallback: `pressed` is the new button state; `granted` is what
      activate() answers, which only an idle tool asks. */
  function ButtonEvent(nav: Nav, device: int, pressed: bool, granted: bool): (r: Nav)
    requires IsDevice(device)
    ensures pressed && nav.mode == Idle ==>
      r == (if granted then Nav(Moving, device, true) else nav)
    ensures pressed && nav.mode == Moving ==>
      r == (if device != nav.movingDevice then nav.(mode := Scaling) else nav)
    ensures pressed && nav.mode == Scaling ==> r == nav
    ensures !pressed && nav.mode == Scaling ==>
      r.mode == Moving && r.active == nav.active
      && r.movingDevice == (if device == nav.movingDevice then 1 - device else nav.movingDevice)
    ensures !pressed && nav.mode == Moving ==>
      r == (if device == nav.movingDevice then nav.(mode := Idle, active := false) else nav)
    ensures !pressed && nav.mode == Idle ==> r == nav
  {
    if pressed then
      match nav.mode
      case Idle => if granted then Nav(Moving, device, true) else nav
      case Moving => if device != nav.movingDevice then nav.(mode := Scaling) else nav
      case Scaling => nav
    else
      match nav.mode
      case Scaling =>
        var moving := if device == nav.movingDevice then 1 - device else nav.movingDevice;
        nav.(mode := Moving, movingDevice := moving)
      case Moving => if device == nav.movingDevice then nav.(mode := Idle, active := false) else nav
      case Idle => nav
  }

  /** What frame() does with the navigation transformation. */
  datatype FrameAction = Nothing | Move(device: int) | MoveAndScale(device: int)

  function Frame(nav: Nav): (a: FrameAction)
    ensures a.Nothing? <==> nav.mode == Idle
    ensures nav.mode == Moving ==> a == Move(nav.movingDevice)
    ensures nav.mode == Scaling ==> a == MoveAndScale(nav.movingDevice)
  {
    match nav.mode
    case Idle => Nothing
    case Moving => Move(nav.movingDevice)
    case Scaling => MoveAndScale(nav.movingDevice)
  }

  /** The tool and the buttons agree: an idle tool does not hold the
      navigation; otherwise it does, and the moving device is one of the
      two devices with its button held; scaling means both are held. */
  ghost predicate Consistent(nav: Nav, held: seq<bool>)
  {
    && |held| == NumDevices
    && (nav.mode == Idle <==> !nav.active)
    && (nav.mode != Idle ==> IsDevice(nav.movingDevice) && held[nav.movingDevice])
    && (nav.mode == Scaling ==> held[0] && held[1])
  }

  /** A button event the input device can deliver: a press of a released
      button or a release of a held one. */
  datatype Event = Event(device: int, pressed: bool, granted: bool)

  ghost predicate Deliverable(e: Event, held: seq<bool>)
  {
    |held| == NumDevices && IsDevice(e.device) && held[e.device] != e.pressed
  }

  /** Every deliverable event keeps the tool consistent with the buttons. */
  lemma StepConsistent(nav: Nav, held: seq<bool>, e: Event)
    requires Consistent(nav, held) && Deliverable(e, held)
    ensures Consistent(ButtonEvent(nav, e.device, e.pressed, e.granted), held[e.device := e.pressed])
  {
  }

  /** Releasing one button while scaling hands the navigation to the
      device whose button is still held. */
  lemma ScalingReleaseKeepsHeldDevice(nav: Nav, held: seq<bool>, device: int, granted: bool)
    requires Consistent(nav, held) && nav.mode == Scaling && IsDevice(device)
    ensures var r := ButtonEvent(nav, device, false, granted);
      r.mode == Moving && r.movingDevice == 1 - device && held[r.movingDevice]
  {
  }

  /** The tool after a sequence of button events. */
  function Run(nav: Nav, events: seq<Event>): (r: Nav)
    requires forall i :: 0 <= i < |events| ==> IsDevice(events[i].device)
    decreases |events|
  {
    if |events| == 0 then nav
    else Run(ButtonEvent(nav, events[0].device, events[0].pressed, events[0].granted), events[1..])
  }

  /** The button states after a sequence of events. */
  function Held(held: seq<bool>, events: seq<Event>): (r: seq<bool>)
    requires |held| == NumDevices
    requires forall i :: 0 <= i < |events| ==> IsDevice(events[i].device)
    ensures |r| == NumDevices
    decreases |events|
  {
    if |events| == 0 then held
    else
      assert IsDevice(events[0].device);
      Held(held[events[0].device := events[0].pressed], events[1..])
  }

  /** Each event deliverable in the button state reached before it. */
  ghost predicate DeliverableRun(held: seq<bool>, events: seq<Event>)
    decreases |events|
  {
    |events| == 0 || (Deliverable(events[0], held) && DeliverableRun(held[events[0].device := events[0].pressed], events[1..]))
  }

  lemma {:induction false} DeliverableRunDevices(held: seq<bool>, events: seq<Event>)
    requires DeliverableRun(held, events)
    ensures forall i :: 0 <= i < |events| ==> IsDevice(events[i].device)
    decreases |events|
  {
    if |events| > 0 {
      DeliverableRunDevices(held[events[0].device := events[0].pressed], events[1..]);
      forall i | 0 <= i < |events|
        ensures IsDevice(events[i].device)
      {
        if i > 0 { assert events[i] == events[1..][i - 1]; }
      }
    }
  }

  /** Starting idle with both buttons released, any deliverable sequence
      of events leaves the tool consistent with the buttons: whenever it
      is not idle, its moving device is 0 or 1 and that button is held. */
  lemma {:induction false} RunConsistent(nav: Nav, held: seq<bool>, events: seq<Event>)
    requires Consistent(nav, held) && DeliverableRun(held, events)
    ensures forall i :: 0 <= i < |events| ==> IsDevice(events[i].device)
    ensures Consistent(Run(nav, events), Held(held, events))
    decreases |events|
  {
    DeliverableRunDevices(held, events);
    if |events| > 0 {
      var e := events[0];
      StepConsistent(nav, held, e);
      RunConsistent(ButtonEvent(nav, e.device, e.pressed, e.granted), held[e.device := e.pressed], events[1..]);
    }
  }
}
