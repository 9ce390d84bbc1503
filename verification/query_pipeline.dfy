/**
 * The widget's text pipeline as a function of a finite, timestamped history of
 * user events: raw text values pass the suppression filter, then a debounce
 * that keeps a value only when no newer value follows within the window, then
 * the minimum-length gate. What comes out is the list of committed queries,
 * each handed to `fetchResults`.
 *
 * The history is complete: after its last event the field stays idle for at
 * least the debounce window, so the last value that reached the debounce is
 * emitted.
 */
module QueryPipeline {
  import opened Text
  import opened Records

  /** `debounce(300)`. */
  const DebounceMillis := 300

  /** `minChars` when the layout does not set it. */
  const DefaultMinChars := 1

  /** What the user does: edit the text, or click a row of the dropdown. */
  datatype UserEvent<V> = TextChanged(at: int, text: string) | ItemClicked(at: int, item: Record<V>)

  /** A text value and the time, in milliseconds, at which it flows. */
  datatype Stamped = Stamped(at: int, text: string)

  /** `ys` is `xs` with some elements left out, the rest in their order. */
  predicate IsSubsequence<T(==)>(ys: seq<T>, xs: seq<T>)
    decreases |xs|
  {
    ys == [] || (xs != [] && ((ys[0] == xs[0] && IsSubsequence(ys[1..], xs[1..])) || IsSubsequence(ys, xs[1..])))
  }

  lemma {:induction false} SubsequenceTransitive<T>(zs: seq<T>, ys: seq<T>, xs: seq<T>)
    requires IsSubsequence(zs, ys) && IsSubsequence(ys, xs)
    ensures IsSubsequence(zs, xs)
    decreases |xs|
  {
    if zs != [] {
      if ys[0] == xs[0] && IsSubsequence(ys[1..], xs[1..]) {
        if zs[0] == ys[0] && IsSubsequence(zs[1..], ys[1..]) {
          SubsequenceTransitive(zs[1..], ys[1..], xs[1..]);
        } else {
          SubsequenceTransitive(zs, ys[1..], xs[1..]);
        }
      } else {
        SubsequenceTransitive(zs, ys, xs[1..]);
      }
    }
  }

  /** The values of all text changes, in order. */
  function TypedValues<V>(events: seq<UserEvent<V>>): (values: seq<Stamped>)
    decreases |events|
  {
    if events == [] then []
    else match events[0]
      case TextChanged(t, s) => [Stamped(t, s)] + TypedValues(events[1..])
      case ItemClicked(_, _) => TypedValues(events[1..])
  }

  /** The events before the first click (all of them when there is none). */
  function BeforeFirstClick<V>(events: seq<UserEvent<V>>): (prefix: seq<UserEvent<V>>)
    ensures prefix <= events
    ensures forall i :: 0 <= i < |prefix| ==> prefix[i].TextChanged?
    ensures |prefix| < |events| ==> events[|prefix|].ItemClicked?
    decreases |events|
  {
    if events == [] || events[0].ItemClicked? then []
    else [events[0]] + BeforeFirstClick(events[1..])
  }

  /** `.filter { !suppressNextSearch }` over the raw text values. A click sets
      the flag before its `setText` writes the row label into the field, so that
      echoed value is filtered out; nothing ever clears the flag. */
  function PassSuppression<V>(events: seq<UserEvent<V>>, suppressed: bool): (passed: seq<Stamped>)
    ensures suppressed ==> passed == []
    ensures IsSubsequence(passed, TypedValues(events))
    decreases |events|
  {
    if events == [] then []
    else match events[0]
      case TextChanged(t, s) =>
        var rest := PassSuppression(events[1..], suppressed);
        assert TypedValues(events) == [Stamped(t, s)] + TypedValues(events[1..]);
        if suppressed then rest
        else
          assert ([Stamped(t, s)] + rest)[1..] == rest;
          [Stamped(t, s)] + rest
      case ItemClicked(_, _) =>
        PassSuppression(events[1..], true)
  }

  /** Once the flag is set nothing passes. */
  lemma {:induction false} SuppressedPassesNothing<V>(events: seq<UserEvent<V>>)
    ensures PassSuppression(events, true) == []
    decreases |events|
  {
    if events != [] {
      SuppressedPassesNothing(events[1..]);
    }
  }

  /** Exactly the text changes before the first click pass the filter: the flag
      is a latch, not a one-shot guard. */
  lemma {:induction false} PassSuppressionIsBeforeFirstClick<V>(events: seq<UserEvent<V>>)
    ensures PassSuppression(events, false) == TypedValues(BeforeFirstClick(events))
    decreases |events|
  {
    if events != [] {
      match events[0]
      case TextChanged(t, s) =>
        PassSuppressionIsBeforeFirstClick(events[1..]);
        assert ([events[0]] + BeforeFirstClick(events[1..]))[1..] == BeforeFirstClick(events[1..]);
      case ItemClicked(_, _) =>
        SuppressedPassesNothing(events[1..]);
    }
  }

  /** Nothing typed after a click reaches the debounce. */
  lemma {:induction false} ClickLatchesSuppression<V>(before: seq<UserEvent<V>>, t: int, item: Record<V>,
                                                     after: seq<UserEvent<V>>, suppressed: bool)
    ensures PassSuppression(before + [ItemClicked(t, item)] + after, suppressed)
            == PassSuppression(before, suppressed)
    decreases |before|
  {
    var events := before + [ItemClicked(t, item)] + after;
    if before == [] {
      assert events[1..] == after;
      SuppressedPassesNothing(after);
    } else {
      assert events[1..] == before[1..] + [ItemClicked(t, item)] + after;
      match before[0]
      case TextChanged(_, _) =>
        ClickLatchesSuppression(before[1..], t, item, after, suppressed);
      case ItemClicked(_, _) =>
        ClickLatchesSuppression(before[1..], t, item, after, true);
        SuppressedPassesNothing(before[1..]);
    }
  }

  /** The value as it leaves the debounce, one window after it arrived. */
  function Emitted(x: Stamped, window: int): Stamped {
    Stamped(x.at + window, x.text)
  }

  /** Every value delayed by the window. */
  function Delay(xs: seq<Stamped>, window: int): seq<Stamped> {
    seq(|xs|, i requires 0 <= i < |xs| => Emitted(xs[i], window))
  }

  /** The value at `i` is not superseded: it is the last one, or the next one
      arrives no sooner than one window later. */
  predicate Survives(xs: seq<Stamped>, i: int, window: int)
    requires 0 <= i < |xs|
  {
    i == |xs| - 1 || xs[i + 1].at - xs[i].at >= window
  }

  /** `debounce(window)`: a value is emitted, one window after it arrived, only
      when no newer value arrives within the window; intermediate values are
      dropped, never queued. */
  function Debounce(xs: seq<Stamped>, window: int): (ys: seq<Stamped>)
    ensures |ys| <= |xs|
    ensures xs != [] ==> ys != [] && ys[|ys| - 1] == Emitted(xs[|xs| - 1], window)
    decreases |xs|
  {
    if xs == [] then []
    else if |xs| == 1 then [Emitted(xs[0], window)]
    else (if xs[1].at - xs[0].at < window then [] else [Emitted(xs[0], window)]) + Debounce(xs[1..], window)
  }

  /** A value comes out of the debounce exactly when some input value at an
      index that survives is delayed to it. */
  lemma {:induction false} DebounceMembership(xs: seq<Stamped>, window: int, y: Stamped)
    ensures y in Debounce(xs, window) <==>
            exists i :: 0 <= i < |xs| && Survives(xs, i, window) && y == Emitted(xs[i], window)
    decreases |xs|
  {
    if |xs| > 1 {
      DebounceMembership(xs[1..], window, y);
      if exists i :: 0 <= i < |xs[1..]| && Survives(xs[1..], i, window) && y == Emitted(xs[1..][i], window) {
        var i :| 0 <= i < |xs[1..]| && Survives(xs[1..], i, window) && y == Emitted(xs[1..][i], window);
        assert Survives(xs, i + 1, window) && y == Emitted(xs[i + 1], window);
      }
      if exists i :: 0 <= i < |xs| && Survives(xs, i, window) && y == Emitted(xs[i], window) {
        var i :| 0 <= i < |xs| && Survives(xs, i, window) && y == Emitted(xs[i], window);
        if i > 0 {
          assert Survives(xs[1..], i - 1, window) && y == Emitted(xs[1..][i - 1], window);
        }
      }
    } else if |xs| == 1 {
      if y == Emitted(xs[0], window) {
        assert Survives(xs, 0, window);
      }
    }
  }

  /** The debounce keeps order: its output is a subsequence of the delayed input. */
  lemma {:induction false} DebounceIsSubsequence(xs: seq<Stamped>, window: int)
    ensures IsSubsequence(Debounce(xs, window), Delay(xs, window))
    decreases |xs|
  {
    var ys := Debounce(xs, window);
    var ds := Delay(xs, window);
    if |xs| == 1 {
      assert ys[1..] == [];
    } else if |xs| > 1 {
      DebounceIsSubsequence(xs[1..], window);
      assert ds[1..] == Delay(xs[1..], window);
      if xs[1].at - xs[0].at >= window {
        assert ys[0] == ds[0] && ys[1..] == Debounce(xs[1..], window);
      } else {
        assert ys == Debounce(xs[1..], window);
        assert IsSubsequence(ys, ds[1..]);
      }
    }
  }

  /** Values that all follow each other within the window collapse to the last one. */
  lemma {:induction false} DebounceCoalesces(xs: seq<Stamped>, window: int)
    requires xs != []
    requires forall i :: 0 <= i < |xs| - 1 ==> xs[i + 1].at - xs[i].at < window
    ensures Debounce(xs, window) == [Emitted(xs[|xs| - 1], window)]
    decreases |xs|
  {
    if |xs| > 1 {
      DebounceCoalesces(xs[1..], window);
    }
  }

  /** The length gate: `it.length >= minChars`, the length in UTF-16 units. */
  predicate LongEnough(q: Stamped, minChars: int) {
    Utf16Length(q.text) >= minChars
  }

  /** `.filter { it.length >= minChars }`. */
  function Gate(xs: seq<Stamped>, minChars: int): (ys: seq<Stamped>)
    ensures forall i :: 0 <= i < |ys| ==> LongEnough(ys[i], minChars)
    ensures forall x :: x in ys <==> x in xs && LongEnough(x, minChars)
    ensures IsSubsequence(ys, xs)
    decreases |xs|
  {
    if xs == [] then []
    else
      var rest := Gate(xs[1..], minChars);
      if LongEnough(xs[0], minChars) then
        assert ([xs[0]] + rest)[1..] == rest;
        [xs[0]] + rest
      else
        assert rest == [] || rest[0] in xs[1..];
        rest
  }

  /** The gate keeps every copy of a long-enough value, repeats included, and
      no copy of any other. */
  lemma {:induction false} GateCounts(xs: seq<Stamped>, minChars: int)
    ensures forall x :: multiset(Gate(xs, minChars))[x] == if LongEnough(x, minChars) then multiset(xs)[x] else 0
    decreases |xs|
  {
    if xs != [] {
      GateCounts(xs[1..], minChars);
      assert xs == [xs[0]] + xs[1..];
      assert multiset(xs) == multiset([xs[0]]) + multiset(xs[1..]);
      var head := if LongEnough(xs[0], minChars) then [xs[0]] else [];
      assert Gate(xs, minChars) == head + Gate(xs[1..], minChars);
      assert multiset(Gate(xs, minChars)) == multiset(head) + multiset(Gate(xs[1..], minChars));
    }
  }

  lemma {:induction false} GateAppend(xs: seq<Stamped>, ys: seq<Stamped>, minChars: int)
    ensures Gate(xs + ys, minChars) == Gate(xs, minChars) + Gate(ys, minChars)
    decreases |xs|
  {
    if xs == [] {
      assert xs + ys == ys;
    } else {
      assert (xs + ys)[1..] == xs[1..] + ys;
      GateAppend(xs[1..], ys, minChars);
    }
  }

  /** The queries the view hands to `fetchResults`, in order. */
  function Committed<V>(events: seq<UserEvent<V>>, minChars: int): (qs: seq<Stamped>)
    ensures forall i :: 0 <= i < |qs| ==> Utf16Length(qs[i].text) >= minChars
    ensures var passed := PassSuppression(events, false);
      passed != [] && LongEnough(passed[|passed| - 1], minChars) ==>
        qs != [] && qs[|qs| - 1] == Emitted(passed[|passed| - 1], DebounceMillis)
  {
    var passed := PassSuppression(events, false);
    if passed != [] && LongEnough(passed[|passed| - 1], minChars) then
      DebounceThenGateLast(passed, minChars);
      Gate(Debounce(passed, DebounceMillis), minChars)
    else
      Gate(Debounce(passed, DebounceMillis), minChars)
  }

  /** The last passed value, when long enough, is the last one committed. */
  lemma DebounceThenGateLast(passed: seq<Stamped>, minChars: int)
    requires passed != [] && LongEnough(passed[|passed| - 1], minChars)
    ensures var qs := Gate(Debounce(passed, DebounceMillis), minChars);
      qs != [] && qs[|qs| - 1] == Emitted(passed[|passed| - 1], DebounceMillis)
  {
    var debounced := Debounce(passed, DebounceMillis);
    assert debounced[|debounced| - 1] == Emitted(passed[|passed| - 1], DebounceMillis);
    GateKeepsLast(debounced, minChars);
  }

  /** A last value that is long enough is also the gate's last value. */
  lemma GateKeepsLast(xs: seq<Stamped>, minChars: int)
    requires xs != []
    ensures LongEnough(xs[|xs| - 1], minChars) ==>
      Gate(xs, minChars) != [] && Gate(xs, minChars)[|Gate(xs, minChars)| - 1] == xs[|xs| - 1]
  {
    var n := |xs| - 1;
    var x := xs[n];
    if LongEnough(x, minChars) {
      assert xs == xs[..n] + [x];
      GateAppend(xs[..n], [x], minChars);
      GateSingle(x, minChars);
    }
  }

  lemma GateSingle(x: Stamped, minChars: int)
    ensures Gate([x], minChars) == if LongEnough(x, minChars) then [x] else []
  {
    assert [x][1..] == [];
  }

  /** Every committed query is long enough, so with `minChars >= 1` the empty
      text is never committed; each one is the value of a text change made
      before the first click, delayed by the window, and no newer value passed
      the filter within the window after it. */
  lemma CommittedQueries<V>(events: seq<UserEvent<V>>, minChars: int, q: Stamped)
    requires q in Committed(events, minChars)
    ensures Utf16Length(q.text) >= minChars
    ensures minChars >= 1 ==> q.text != ""
    ensures var passed := TypedValues(BeforeFirstClick(events));
      exists i :: 0 <= i < |passed| && Survives(passed, i, DebounceMillis)
                  && q == Emitted(passed[i], DebounceMillis)
  {
    PassSuppressionIsBeforeFirstClick(events);
    DebounceMembership(PassSuppression(events, false), DebounceMillis, q);
  }

  /** The committed queries keep the order of the values that passed the filter. */
  lemma CommittedInOrder<V>(events: seq<UserEvent<V>>, minChars: int)
    ensures IsSubsequence(Committed(events, minChars),
                          Delay(TypedValues(BeforeFirstClick(events)), DebounceMillis))
  {
    var passed := PassSuppression(events, false);
    PassSuppressionIsBeforeFirstClick(events);
    DebounceIsSubsequence(passed, DebounceMillis);
    SubsequenceTransitive(Committed(events, minChars), Debounce(passed, DebounceMillis),
                          Delay(passed, DebounceMillis));
  }

  /** Typing "a", "ab", "abc" 50 ms apart commits only "abc", 300 ms after it was typed. */
  lemma CoalescingExample<V>(events: seq<UserEvent<V>>)
    requires events == [TextChanged(0, "a"), TextChanged(50, "ab"), TextChanged(100, "abc")]
    ensures Committed(events, DefaultMinChars) == [Stamped(400, "abc")]
  {
    var passed := PassSuppression(events, false);
    var e2: seq<UserEvent<V>> := [TextChanged(100, "abc")];
    var e1: seq<UserEvent<V>> := [TextChanged(50, "ab")] + e2;
    assert e2[1..] == [] && e1[1..] == e2 && events[1..] == e1;
    assert PassSuppression(e2, false) == [Stamped(100, "abc")];
    assert PassSuppression(e1, false) == [Stamped(50, "ab"), Stamped(100, "abc")];
    assert passed == [Stamped(0, "a"), Stamped(50, "ab"), Stamped(100, "abc")];
    DebounceCoalesces(passed, DebounceMillis);
    var debounced := Debounce(passed, DebounceMillis);
    assert debounced == [Stamped(400, "abc")];
    assert LongEnough(debounced[0], DefaultMinChars);
  }

  /** A single text change is searched 300 ms later exactly when it is long enough. */
  lemma CommittedSingle<V>(events: seq<UserEvent<V>>, t: int, text: string, minChars: int)
    requires events == [TextChanged(t, text)]
    ensures Committed(events, minChars)
            == if Utf16Length(text) >= minChars then [Stamped(t + DebounceMillis, text)] else []
  {
    assert events[1..] == [];
    assert PassSuppression(events, false) == [Stamped(t, text)];
  }

  /** With `minChars = 3`, "ab" on its own is never committed and "abc" is. */
  lemma MinCharsExample<V>(short: seq<UserEvent<V>>, long: seq<UserEvent<V>>)
    requires short == [TextChanged(0, "ab")] && long == [TextChanged(0, "abc")]
    ensures Committed(short, 3) == []
    ensures Committed(long, 3) == [Stamped(300, "abc")]
  {
    CommittedSingle(short, 0, "ab", 3);
    CommittedSingle(long, 0, "abc", 3);
    assert Utf16Length("ab") == 2;
    assert Utf16Length("abc") == 3;
  }
}
