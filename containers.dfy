/**
 * The `Stack` and `Queue` classes of both source files: wrappers around a
 * Python list `items` that is changed in place. Popping or dequeuing an
 * empty container returns None and changes nothing.
 */
module Containers {
  import opened Wrappers
  import Layout

  /** `reversed(items)`: the last item first. */
  function Reversed(s: seq<int>): (r: seq<int>)
    ensures |r| == |s|
    ensures forall i :: 0 <= i < |s| ==> r[i] == s[|s| - 1 - i]
  {
    if s == [] then [] else [s[|s| - 1]] + Reversed(s[..|s| - 1])
  }

  class Stack {
    var items: seq<int>

    constructor ()
      ensures items == []
    {
      items := [];
    }

    /** `push`: appends to the end of the list, which is the top. */
    method Push(item: int)
      modifies this
      ensures items == old(items) + [item]
    {
      items := items + [item];
    }

    /** `pop`: removes and returns the last item; None on an empty stack. */
    method Pop() returns (r: Option<int>)
      modifies this
      ensures old(items) == [] ==> r == None && items == old(items)
      ensures old(items) != [] ==>
        r == Some(old(items)[|old(items)| - 1]) && items == old(items)[..|old(items)| - 1]
    {
      if items != [] {
        r := Some(items[|items| - 1]);
        items := items[..|items| - 1];
      } else {
        r := None;
      }
    }

    /** `draw`: bar i shows `items[len - 1 - i]`, the top of the stack leftmost. */
    method Draw(theme: Layout.Theme) returns (ps: seq<Layout.Primitive>)
      ensures ps == Layout.Bars(theme, Reversed(items))
      ensures Layout.Labels(ps) == Reversed(items)
    {
      ps := Layout.DrawBars(theme, Reversed(items));
      Layout.BarsLabels(theme, Reversed(items), 0);
    }
  }

  class Queue {
    var items: seq<int>

    constructor ()
      ensures items == []
    {
      items := [];
    }

    /** `enqueue`: appends to the back. */
    method Enqueue(item: int)
      modifies this
      ensures items == old(items) + [item]
    {
      items := items + [item];
    }

    /** `dequeue`: removes and returns the front item (`pop(0)`); None on an empty queue. */
    method Dequeue() returns (r: Option<int>)
      modifies this
      ensures old(items) == [] ==> r == None && items == old(items)
      ensures old(items) != [] ==> r == Some(old(items)[0]) && items == old(items)[1..]
    {
      if items != [] {
        r := Some(items[0]);
        items := items[1..];
      } else {
        r := None;
      }
    }

    /** `draw`: bar i shows `items[i]`, the front of the queue leftmost. */
    method Draw(theme: Layout.Theme) returns (ps: seq<Layout.Primitive>)
      ensures ps == Layout.Bars(theme, items)
      ensures Layout.Labels(ps) == items
    {
      ps := Layout.DrawBars(theme, items);
      Layout.BarsLabels(theme, items, 0);
    }
  }
}
