/**
 * The landing-page header's scroll handler: it hides the header while the
 * page scrolls down, shows it while the page scrolls up or stays put, and
 * marks it as scrolled once the page is more than 50 pixels down.
 */
module Header {

  /** `lastScrollY.current`, `isVisible` and `isScrolled`. */
  datatype ScrollState = ScrollState(lastScrollY: int, isVisible: bool, isScrolled: bool)

  const ScrolledThreshold: int := 50

  /** The state on mount. */
  const Initial := ScrollState(0, true, false)

  /** `handleScroll` with `window.scrollY == y`. */
  function HandleScroll(s: ScrollState, y: int): (r: ScrollState)
    ensures r.isVisible <==> y <= s.lastScrollY
    ensures r.isScrolled <==> y > ScrolledThreshold
    ensures r.lastScrollY == y
  {
    var isVisible := if y > s.lastScrollY then false else true;
    ScrollState(y, isVisible, y > ScrolledThreshold)
  }

  /** The state after the scroll events `ys`, in the order they fire. */
  function Replay(s: ScrollState, ys: seq<int>): ScrollState
    decreases |ys|
  {
    if ys == [] then s else Replay(HandleScroll(s, ys[0]), ys[1..])
  }

  /** Replaying one more event is handling it after the others. */
  lemma {:induction false} ReplaySnoc(s: ScrollState, ys: seq<int>, y: int)
    ensures Replay(s, ys + [y]) == HandleScroll(Replay(s, ys), y)
    decreases |ys|
  {
    if ys != [] {
      assert (ys + [y])[1..] == ys[1..] + [y];
      ReplaySnoc(HandleScroll(s, ys[0]), ys[1..], y);
    }
  }

  /**
   * After any non-empty run of events from mount, the header remembers the
   * last position, is visible exactly when that position is not below the
   * one before it (0 for the first event), and is scrolled exactly when the
   * last position is past the threshold: nothing older matters.
   */
  lemma OnlyLastTwoPositionsMatter(ys: seq<int>)
    requires |ys| > 0
    ensures var r, last := Replay(Initial, ys), ys[|ys| - 1];
      var before := if |ys| == 1 then Initial.lastScrollY else ys[|ys| - 2];
      && r.lastScrollY == last
      && (r.isVisible <==> last <= before)
      && (r.isScrolled <==> last > ScrolledThreshold)
  {
    var prefix := ys[..|ys| - 1];
    assert ys == prefix + [ys[|ys| - 1]];
    ReplaySnoc(Initial, prefix, ys[|ys| - 1]);
    if |ys| > 1 {
      var p2 := prefix[..|prefix| - 1];
      assert prefix == p2 + [prefix[|prefix| - 1]];
      ReplaySnoc(Initial, p2, prefix[|prefix| - 1]);
    }
  }

  /** Before any event the header is shown, not scrolled, and at position 0. */
  lemma InitialIsVisibleAtTop()
    ensures Replay(Initial, []).isVisible && !Replay(Initial, []).isScrolled
    ensures Replay(Initial, []).lastScrollY == 0
  {
  }
}
