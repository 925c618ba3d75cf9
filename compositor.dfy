/**
 * The compositor's draw list: the windows to draw, in a singly-linked list
 * from the window below all others (`head`) to the one drawn last, on top
 * (`tail`), with a count of its nodes (`size`).
 *
 * The chain of nodes is modelled by the windows met when following `next`
 * from `head`; `tail` is the place of the tail node in that chain, -1 for
 * NULL. A window is known by its address.
 */
module Compositor {
  type Window = nat

  /**
   * The first place at or after `start` that holds `w`, or -1. The loops of
   * drawlist_focus and drawlist_remove look at `w_id->next` only, so they
   * start from the second node.
   */
  function FirstFrom(chain: seq<Window>, w: Window, start: nat): (k: int)
    decreases |chain| - start
    ensures k == -1 || (start <= k < |chain| && chain[k] == w)
    ensures k == -1 <==> forall j :: start <= j < |chain| ==> chain[j] != w
    ensures k != -1 ==> forall j :: start <= j < k ==> chain[j] != w
  {
    if start >= |chain| then -1
    else if chain[start] == w then start
    else FirstFrom(chain, w, start + 1)
  }

  /** Where the loops of drawlist_focus and drawlist_remove find `w`: never at the head. */
  function Successor(chain: seq<Window>, w: Window): int
  {
    FirstFrom(chain, w, 1)
  }

  /**
   * With two or more windows the head is never found: drawlist_focus and
   * drawlist_remove answer -1 for the bottom window when it is not also
   * further up the list.
   */
  lemma HeadNeverFound(chain: seq<Window>, w: Window)
    requires |chain| >= 2 && chain[0] == w && forall j :: 1 <= j < |chain| ==> chain[j] != w
    ensures Successor(chain, w) == -1
  {
  }

  /** The chain without the node at `k`, and with it moved to the end. */
  function Without(chain: seq<Window>, k: nat): (r: seq<Window>)
    requires k < |chain|
    ensures |r| == |chain| - 1
    ensures forall j :: 0 <= j < k ==> r[j] == chain[j]
    ensures forall j :: k <= j < |r| ==> r[j] == chain[j + 1]
  {
    chain[..k] + chain[k + 1..]
  }

  class DrawList {
    var chain: seq<Window>
    var tail: int
    var size: int

    /**
     * The list is well formed: `tail` is the last node (NULL only for an
     * empty list) and `size` counts the nodes.
     */
    ghost predicate Valid()
      reads this
    {
      (if chain == [] then tail == -1 else tail == |chain| - 1) && size == |chain|
    }

    /** `drawlist = {0}`: empty. */
    constructor ()
      ensures chain == [] && tail == -1 && size == 0 && Valid()
    {
      chain, tail, size := [], -1, 0;
    }

    /**
     * drawlist_add(window); `granted` is whether kmalloc found room for the
     * node. The new node follows the tail; with no tail it starts a new
     * list of one.
     */
    method Add(window: Window, granted: bool) returns (r: int)
      requires -1 <= tail < |chain|
      modifies this
      ensures !granted ==> r == -1 && chain == old(chain) && tail == old(tail) && size == old(size)
      ensures granted && old(tail) == -1 ==> r == 0 && chain == [window] && tail == 0 && size == 1
      ensures granted && old(tail) != -1 ==>
        r == 0 && chain == old(chain[..tail + 1]) + [window] && tail == old(tail) + 1 && size == old(size) + 1
      ensures old(Valid()) ==> Valid() && (granted ==> chain == old(chain) + [window])
    {
      if !granted {
        return -1;
      }
      if tail == -1 {
        chain, tail, size := [window], 0, 1;
      } else {
        chain := chain[..tail + 1] + [window];
        tail, size := tail + 1, size + 1;
      }
      return 0;
    }

    /**
     * drawlist_focus(window): nothing to do when the window is on top;
     * otherwise the first node after the head that holds it is unlinked
     * and put after the tail. The list must not be empty.
     */
    method Focus(window: Window) returns (r: int)
      requires Valid() && chain != []
      modifies this
      ensures Valid()
      ensures old(chain[tail]) == window ==> r == 0 && chain == old(chain)
      ensures old(chain[tail]) != window && Successor(old(chain), window) == -1 ==> r == -1 && chain == old(chain)
      ensures old(chain[tail]) != window && Successor(old(chain), window) != -1 ==>
        r == 0 && chain == Without(old(chain), Successor(old(chain), window)) + [window]
    {
      if chain[tail] == window {
        return 0;
      }
      var i := 0;
      while i < |chain|
        invariant 0 <= i <= |chain|
        invariant forall j :: 1 <= j <= i && j < |chain| ==> chain[j] != window
      {
        if i + 1 < |chain| && chain[i + 1] == window {
          var k := i + 1;
          chain := Without(chain, k);
          tail := tail - 1;
          chain := chain + [window];
          tail := tail + 1;
          return 0;
        }
        i := i + 1;
      }
      return -1;
    }

    /**
     * drawlist_remove(window): a list of one node holding the window is
     * emptied; otherwise the first node after the head that holds it is
     * unlinked, `tail` moving back when it was that node. The list must
     * not be empty.
     */
    method Remove(window: Window) returns (r: int)
      requires Valid() && chain != []
      modifies this
      ensures Valid()
      ensures old(|chain|) == 1 && old(chain[0]) == window ==> r == 0 && chain == []
      ensures !(old(|chain|) == 1 && old(chain[0]) == window) && Successor(old(chain), window) == -1 ==>
        r == -1 && chain == old(chain)
      ensures !(old(|chain|) == 1 && old(chain[0]) == window) && Successor(old(chain), window) != -1 ==>
        r == 0 && chain == Without(old(chain), Successor(old(chain), window))
    {
      if tail == 0 && chain[0] == window {
        chain, tail, size := [], -1, 0;
        return 0;
      }
      var i := 0;
      while i < |chain|
        invariant 0 <= i <= |chain|
        invariant forall j :: 1 <= j <= i && j < |chain| ==> chain[j] != window
      {
        if i + 1 < |chain| && chain[i + 1] == window {
          var k := i + 1;
          chain := Without(chain, k);
          if tail == k {
            tail := i;
          } else {
            // The tail node comes after the one unlinked, so it moves up one place.
            tail := tail - 1;
          }
          size := size - 1;
          return 0;
        }
        i := i + 1;
      }
      return -1;
    }

    /**
     * set_background as written: a new node in front of the head, counted
     * in `size`; `tail` is left as it was, NULL for an empty list.
     */
    method SetBackgroundAsWritten(window: Window)
      requires -1 <= tail < |chain|
      modifies this
      ensures chain == [window] + old(chain) && size == old(size) + 1
      ensures tail == (if old(tail) == -1 then -1 else old(tail) + 1)
    {
      chain := [window] + chain;
      if tail != -1 {
        tail := tail + 1;
      }
      size := size + 1;
    }

    /** set_background with the tail set when the list was empty: the window goes below all others. */
    method SetBackground(window: Window)
      requires Valid()
      modifies this
      ensures Valid() && chain == [window] + old(chain)
    {
      chain := [window] + chain;
      if tail == -1 {
        tail := 0;
      } else {
        tail := tail + 1;
      }
      size := size + 1;
    }
  }

  /**
   * The background set on an empty list, as written, leaves no tail, so the
   * next window added starts a new list and the background is lost.
   */
  method BackgroundLost(background: Window, window: Window) returns (windows: seq<Window>, size: int)
    ensures windows == [window] && size == 1
  {
    var list := new DrawList();
    list.SetBackgroundAsWritten(background);
    var _ := list.Add(window, true);
    windows, size := list.chain, list.size;
  }

  /** With the tail set, the background stays below the window added after it. */
  method BackgroundKept(background: Window, window: Window) returns (windows: seq<Window>, size: int)
    ensures windows == [background, window] && size == 2
  {
    var list := new DrawList();
    list.SetBackground(background);
    var _ := list.Add(window, true);
    windows, size := list.chain, list.size;
  }
}
