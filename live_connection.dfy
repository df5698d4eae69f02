/**
 * The event-stream connection both live feeds keep: a source is opened on
 * mount; an error closes the current source and schedules one reconnect;
 * a reconnect opens a new source; unmounting runs the effect's cleanup.
 * Sources are numbered in the order they were opened.
 */
module LiveConnection {

  /**
   * `created` sources have been opened so far, `closed` holds the ones
   * closed since, `current` is the latest one, and `pending` counts the
   * reconnect timers scheduled but not yet fired.
   */
  datatype Link = Link(created: nat, closed: set<nat>, current: nat, pending: nat)

  /** The sources still open. */
  function OpenSources(l: Link): set<nat> {
    set i | 0 <= i < l.created && i !in l.closed
  }

  /** Events (open, message, error) reach the handlers only while the latest source is open. */
  predicate IsOpen(l: Link) {
    l.current < l.created && l.current !in l.closed
  }

  /**
   * While mounted: every source but the latest is closed, and a reconnect is
   * pending exactly when the latest has been closed by an error.
   */
  ghost predicate Inv(l: Link) {
    && l.created >= 1
    && l.current == l.created - 1
    && (forall i | 0 <= i < l.current :: i in l.closed)
    && (forall i | i in l.closed :: i < l.created)
    && (l.pending == 0 || l.pending == 1)
    && (l.pending == 1 <==> l.current in l.closed)
  }

  /** The first `connectToStream()` of the effect. */
  function Mount(): Link {
    Link(1, {}, 0, 0)
  }

  /** Mounting opens one source, the current one, with nothing pending: the invariant holds. */
  lemma MountKeepsInv()
    ensures Inv(Mount()) && IsOpen(Mount())
  {
  }

  /** The error handler: closes the current source and schedules exactly one reconnect. */
  function Error(l: Link): (r: Link)
    requires IsOpen(l)
    ensures r.closed == l.closed + {l.current} && r.pending == l.pending + 1
    ensures r.created == l.created && r.current == l.current
    ensures !IsOpen(r)
  {
    l.(closed := l.closed + {l.current}, pending := l.pending + 1)
  }

  /** A reconnect timer fires: a new source is opened and becomes the current one. */
  function Reconnect(l: Link): (r: Link)
    requires l.pending > 0
    ensures r.created == l.created + 1 && r.current == l.created && r.closed == l.closed
    ensures r.pending == l.pending - 1
    ensures Inv(l) ==> IsOpen(r)
  {
    Link(l.created + 1, l.closed, l.created, l.pending - 1)
  }

  /** The cleanup as written: it closes the source the effect opened first, and only that one. */
  function UnmountAsWritten(l: Link): (r: Link)
    ensures r.closed == l.closed + {0} && r.pending == l.pending
    ensures r.created == l.created && r.current == l.current
  {
    l.(closed := l.closed + {0})
  }

  /** The cleanup as intended: close the latest source and drop any pending reconnect. */
  function Unmount(l: Link): (r: Link)
    ensures r.closed == l.closed + {l.current} && r.pending == 0
    ensures r.created == l.created && r.current == l.current
  {
    l.(closed := l.closed + {l.current}, pending := 0)
  }

  /** At most one source is open at any time while mounted: the latest. */
  lemma AtMostOneOpen(l: Link)
    requires Inv(l)
    ensures OpenSources(l) <= {l.current}
    ensures IsOpen(l) <==> OpenSources(l) == {l.current}
  {
  }

  /** Errors and reconnects keep the invariant. */
  lemma ErrorKeepsInv(l: Link)
    requires Inv(l) && IsOpen(l)
    ensures Inv(Error(l))
  {
  }

  lemma ReconnectKeepsInv(l: Link)
    requires Inv(l) && l.pending > 0
    ensures Inv(Reconnect(l))
  {
  }

  /**
   * What the cleanup as written does achieve: at most the latest source stays
   * open; with no reconnect yet, nothing does; after a reconnect whose source
   * is still open, that source stays open.
   */
  lemma UnmountAsWrittenLeavesLatest(l: Link)
    requires Inv(l)
    ensures OpenSources(UnmountAsWritten(l)) <= {l.current}
    ensures l.current == 0 ==> OpenSources(UnmountAsWritten(l)) == {}
    ensures l.current > 0 && IsOpen(l) ==> OpenSources(UnmountAsWritten(l)) == {l.current}
  {
    var r := UnmountAsWritten(l);
    if l.current > 0 && IsOpen(l) {
      assert l.current in OpenSources(r);
    }
  }

  /**
   * The cleanup as written leaks: after one error and the reconnect it
   * triggers, unmounting closes the first source again and leaves the
   * reconnected one open.
   */
  lemma UnmountAsWrittenLeaks(l: Link)
    requires l == Error(Mount())
    ensures OpenSources(UnmountAsWritten(Reconnect(l))) == {1}
  {
    ErrorAfterMount(l);
    OnlySecondOpen(UnmountAsWritten(Reconnect(l)));
  }

  /**
   * An unmount between the error and the reconnect leaves the reconnect
   * pending, so a source opens after the component is gone.
   */
  lemma UnmountAsWrittenKeepsReconnect(l: Link)
    requires l == Error(Mount())
    ensures UnmountAsWritten(l).pending == 1
    ensures OpenSources(Reconnect(UnmountAsWritten(l))) == {1}
  {
    ErrorAfterMount(l);
    OnlySecondOpen(Reconnect(UnmountAsWritten(l)));
  }

  lemma ErrorAfterMount(l: Link)
    requires l == Error(Mount())
    ensures l == Link(1, {0}, 0, 1)
  {
  }

  lemma OnlySecondOpen(l: Link)
    requires l.created == 2 && l.closed == {0}
    ensures OpenSources(l) == {1}
  {
    assert 1 in OpenSources(l);
  }

  /** The intended cleanup leaves no source open and nothing pending, whatever happened before. */
  lemma UnmountClosesEverything(l: Link)
    requires Inv(l)
    ensures OpenSources(Unmount(l)) == {} && Unmount(l).pending == 0
  {
    var r := Unmount(l);
    forall i | 0 <= i < r.created ensures i in r.closed {
    }
  }
}
