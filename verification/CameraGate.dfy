/** The gate around a captured device, as the object the capture thread calls. */
module CameraGate {
  import opened Camera

  /** The publish flag, shared by the requesters, the media loop and the capture thread. */
  class SharedFlag {
    var on: bool

    constructor (on: bool)
      ensures this.on == on
    {
      this.on := on;
    }
  }

  datatype Polled = Frame | NoFrame | Failed

  /** `running` is the wrapped device's own state; how it answers is given with each call. */
  class GatedCameraSource {
    const enabled: SharedFlag
    var streaming: bool
    var running: bool

    ghost function View(): Gate
      reads this
    {
      Gate(streaming, running)
    }

    constructor (enabled: SharedFlag)
      ensures this.enabled == enabled && View() == Gate(false, false)
    {
      this.enabled := enabled;
      streaming, running := false, false;
    }

    method Start(startOk: bool) returns (ok: bool)
      modifies this
      ensures ok == startOk && View() == if startOk then Gate(true, true) else old(View())
    {
      if startOk {
        running := true;
        streaming := true;
      }
      return startOk;
    }

    method Stop(stopOk: bool) returns (ok: bool)
      modifies this
      ensures ok == stopOk && View() == Gate(false, old(running) && !stopOk)
    {
      streaming := false;
      if stopOk {
        running := false;
      }
      return stopOk;
    }

    /** Check the flag before capturing; stop the device as soon as it reads off. */
    method PopFrame(o: Outcome) returns (r: Polled)
      modifies this
      ensures View() == PollGate(old(View()), enabled.on, o).0
      ensures r == Frame <==> PollGate(old(View()), enabled.on, o).1
      ensures !enabled.on ==> r == NoFrame && !streaming
      ensures r == Failed <==> enabled.on && ((!old(streaming) && !o.startOk) || !o.popOk)
    {
      if !enabled.on {
        if streaming {
          if o.stopOk {
            running := false;
          }
          streaming := false;
        }
        return NoFrame;
      }
      if !streaming {
        if !o.startOk {
          return Failed;
        }
        running := true;
        streaming := true;
      }
      if !o.popOk {
        streaming := false;
        return Failed;
      }
      return if o.hasFrame then Frame else NoFrame;
    }
  }
}
