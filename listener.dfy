/** The start/stop state machine shared by every listener of the connector:
    a listening flag, two re-entrancy flags that are raised only while the
    monitor is being started or stopped, and the disposed flag. Starting and
    stopping the underlying monitor are counted, which is what a subclass
    observes of them. */
module Listeners {

  class Listener {
    var isListening: bool
    var disposedValue: bool
    var startingListen: bool
    var stoppingListen: bool

    /** Calls of `StartMonitor` and `StopMonitor` so far. */
    var monitorStarts: nat
    var monitorStops: nat

    constructor ()
      ensures !isListening && !disposedValue && Idle()
      ensures monitorStarts == 0 && monitorStops == 0
    {
      isListening := false;
      disposedValue := false;
      startingListen := false;
      stoppingListen := false;
      monitorStarts := 0;
      monitorStops := 0;
    }

    /** No start or stop is in progress. */
    predicate Idle()
      reads this
    {
      !startingListen && !stoppingListen
    }

    /** The monitor is running exactly while the listener is listening. */
    predicate Balanced()
      reads this
    {
      monitorStarts - monitorStops == if isListening then 1 else 0
    }

    /** Starts the monitor once, unless already listening or starting. */
    method StartListening()
      modifies this
      ensures old(isListening || startingListen) ==>
        && isListening == old(isListening) && startingListen == old(startingListen)
        && monitorStarts == old(monitorStarts)
      ensures !old(isListening || startingListen) ==>
        && isListening && !startingListen
        && monitorStarts == old(monitorStarts) + 1
      ensures stoppingListen == old(stoppingListen) && disposedValue == old(disposedValue)
      ensures monitorStops == old(monitorStops)
      ensures old(Idle()) ==> Idle()
      ensures old(Idle() && Balanced()) ==> Balanced()
    {
      if isListening || startingListen {
        // Already listening, or a start is under way.
        return;
      }

      startingListen := true;
      monitorStarts := monitorStarts + 1;
      isListening := true;
      startingListen := false;
    }

    /** Stops the monitor once, unless not listening or already stopping. */
    method StopListening()
      modifies this
      ensures (!old(isListening) || old(stoppingListen)) ==>
        && isListening == old(isListening) && stoppingListen == old(stoppingListen)
        && monitorStops == old(monitorStops)
      ensures (old(isListening) && !old(stoppingListen)) ==>
        && !isListening && !stoppingListen
        && monitorStops == old(monitorStops) + 1
      ensures startingListen == old(startingListen) && disposedValue == old(disposedValue)
      ensures monitorStarts == old(monitorStarts)
      ensures old(Idle()) ==> Idle()
      ensures old(Idle() && Balanced()) ==> Balanced()
    {
      if !isListening || stoppingListen {
        // Not listening, or a stop is under way.
        return;
      }

      stoppingListen := true;
      monitorStops := monitorStops + 1;
      isListening := false;
      stoppingListen := false;
    }
  }
}
