/** The MicroEvent mixin both the Calendar and the DateRangePicker use: a
    map from event name to the listeners bound to it, in binding order.
    `trigger` calls them in that order; here it returns that sequence, since
    the listeners' own effects belong to whoever bound them. The registry
    starts empty, as the lazy `this._events || {}` does. */
module MicroEvent {

  datatype Registry<L> = Registry(events: map<string, seq<L>>)

  /** The listeners `trigger(name)` calls, in order: none for a name never bound. */
  function Listeners<L>(r: Registry<L>, name: string): seq<L> {
    if name in r.events then r.events[name] else []
  }

  /** `bind(name, f)`: append f to the listeners of name. */
  function Bind<L>(r: Registry<L>, name: string, f: L): (r': Registry<L>)
    ensures Listeners(r', name) == Listeners(r, name) + [f]
    ensures forall other :: other != name ==> Listeners(r', other) == Listeners(r, other)
  {
    Registry(r.events[name := Listeners(r, name) + [f]])
  }

  /** `Array.prototype.indexOf`: the first position holding x, or -1. */
  function IndexOf<L(==)>(s: seq<L>, x: L): (i: int)
    ensures -1 <= i < |s|
    ensures i >= 0 ==> s[i] == x && forall j :: 0 <= j < i ==> s[j] != x
    ensures i == -1 <==> x !in s
  {
    if |s| == 0 then -1
    else if s[0] == x then 0
    else
      var k := IndexOf(s[1..], x);
      if k == -1 then -1 else k + 1
  }

  /** `Array.prototype.splice(start, 1)`: a negative start counts back from
      the end (clamped at 0), a start past the end removes nothing. */
  function SpliceOne<L>(s: seq<L>, start: int): (r: seq<L>)
    ensures 0 <= start < |s| ==> r == s[..start] + s[start + 1..]
    ensures -|s| <= start < 0 ==> r == s[..|s| + start] + s[|s| + start + 1..]
    ensures start >= |s| || |s| == 0 ==> r == s
    ensures |s| > 0 && start < -|s| ==> r == s[1..]
  {
    var k := if start < 0 then (if |s| + start < 0 then 0 else |s| + start)
             else (if start > |s| then |s| else start);
    if k < |s| then s[..k] + s[k + 1..] else s
  }

  /** `unbind(name, f)` as written: nothing for a name never bound, otherwise
      `splice(indexOf(f), 1)` on its listeners. */
  function Unbind<L(==)>(r: Registry<L>, name: string, f: L): (r': Registry<L>)
    ensures name !in r.events ==> r' == r
    ensures |Listeners(r, name)| == 0 ==> Listeners(r', name) == []
    ensures forall other :: other != name ==> Listeners(r', other) == Listeners(r, other)
  {
    if name !in r.events then r
    else Registry(r.events[name := SpliceOne(r.events[name], IndexOf(r.events[name], f))])
  }

  /** Unbinding a bound listener removes its first binding and keeps the
      order of the rest. */
  lemma UnbindBound<L>(r: Registry<L>, name: string, f: L)
    requires f in Listeners(r, name)
    ensures exists i :: (0 <= i < |Listeners(r, name)| && Listeners(r, name)[i] == f
                         && f !in Listeners(r, name)[..i]
                         && Listeners(Unbind(r, name, f), name) == Listeners(r, name)[..i] + Listeners(r, name)[i + 1..])
    ensures multiset(Listeners(Unbind(r, name, f), name)) == multiset(Listeners(r, name)) - multiset{f}
  {
    var s := Listeners(r, name);
    var i := IndexOf(s, f);
    assert s == s[..i] + [f] + s[i + 1..];
    assert f !in s[..i];
  }

  /** As written, unbinding a listener that was never bound removes the
      last listener of the name, because `indexOf` gives -1 and
      `splice(-1, 1)` removes the final element. */
  lemma UnbindUnboundDropsLast<L>(r: Registry<L>, name: string, f: L)
    requires f !in Listeners(r, name) && |Listeners(r, name)| > 0
    ensures Listeners(Unbind(r, name, f), name) == Listeners(r, name)[..|Listeners(r, name)| - 1]
  {
  }

  /** Unbinding as evidently intended: a listener that is not bound leaves
      the registry alone. */
  function UnbindIfBound<L(==)>(r: Registry<L>, name: string, f: L): (r': Registry<L>)
    ensures f !in Listeners(r, name) ==> Listeners(r', name) == Listeners(r, name)
    ensures forall other :: other != name ==> Listeners(r', other) == Listeners(r, other)
  {
    if name !in r.events then r
    else
      var i := IndexOf(r.events[name], f);
      if i == -1 then r else Registry(r.events[name := SpliceOne(r.events[name], i)])
  }

  /** The corrected unbind removes exactly one binding of f when there is
      one and nothing otherwise, and undoes a `bind` of a fresh listener. */
  lemma UnbindIfBoundRemovesOne<L>(r: Registry<L>, name: string, f: L)
    ensures multiset(Listeners(UnbindIfBound(r, name, f), name)) ==
      if f in Listeners(r, name) then multiset(Listeners(r, name)) - multiset{f}
      else multiset(Listeners(r, name))
    ensures f !in Listeners(r, name) ==>
      Listeners(UnbindIfBound(Bind(r, name, f), name, f), name) == Listeners(r, name)
  {
    if f in Listeners(r, name) {
      UnbindBound(r, name, f);
    }
    var s := Listeners(r, name);
    if f !in s {
      var t := Listeners(Bind(r, name, f), name);
      assert t == s + [f];
      assert IndexOf(t, f) == |s|;
      assert t[..|s|] == s;
    }
  }

  /** Binding then unbinding a listener always restores the listeners it
      triggers as a multiset, and as the same sequence when the listener
      was not bound before. */
  lemma BindThenUnbind<L>(r: Registry<L>, name: string, f: L)
    ensures multiset(Listeners(Unbind(Bind(r, name, f), name, f), name)) == multiset(Listeners(r, name))
    ensures f !in Listeners(r, name) ==> Listeners(Unbind(Bind(r, name, f), name, f), name) == Listeners(r, name)
  {
    var s := Listeners(r, name);
    var b := Bind(r, name, f);
    assert f in Listeners(b, name);
    UnbindBound(b, name, f);
    if f !in s {
      assert Listeners(b, name) == s + [f];
      assert IndexOf(s + [f], f) == |s|;
      assert (s + [f])[..|s|] == s;
    }
  }
}
