/**
 * The two one-shot intersection observers: reveal-on-scroll for cards and lazy loading for
 * images. Each callback runs through its batch of entries; an intersecting entry applies the
 * observer's effect to its target and stops observing it.
 */
module Observers {
  import opened Js

  /** Elements are named by identity. */
  type ElementId = nat

  /** An `IntersectionObserverEntry`, reduced to its target and its `isIntersecting` flag. */
  datatype Entry = Entry(target: ElementId, isIntersecting: bool)

  /** What an observer sees of the page: the targets it still observes and the elements' state. */
  datatype ObserverState<E> = ObserverState(observed: set<ElementId>, elements: map<ElementId, E>)

  /** One entry of the callback's `forEach`. */
  function Step<E>(effect: E -> E, w: ObserverState<E>, entry: Entry): ObserverState<E>
  {
    if !entry.isIntersecting then w
    else
      var t := entry.target;
      ObserverState(w.observed - {t}, if t in w.elements then w.elements[t := effect(w.elements[t])] else w.elements)
  }

  /** The callback on a whole batch, entries taken in order. */
  function Run<E>(effect: E -> E, w: ObserverState<E>, entries: seq<Entry>): ObserverState<E>
    decreases |entries|
  {
    if entries == [] then w
    else Step(effect, Run(effect, w, entries[..|entries| - 1]), entries[|entries| - 1])
  }

  /** The targets of the batch's intersecting entries. */
  function Intersecting(entries: seq<Entry>): set<ElementId>
  {
    set i | 0 <= i < |entries| && entries[i].isIntersecting :: entries[i].target
  }

  /**
   * The records a notification hands the callback: the browser queues intersection records
   * only for targets the observer observes, and the callback receives the whole queue before
   * it unobserves anything.
   */
  function Deliver(observed: set<ElementId>, records: seq<Entry>): (r: seq<Entry>)
    ensures forall i | 0 <= i < |r| :: r[i].target in observed
    ensures Intersecting(r) == Intersecting(records) * observed
    decreases |records|
  {
    if records == [] then []
    else
      var rest := Deliver(observed, records[..|records| - 1]);
      var last := records[|records| - 1];
      IntersectingSnoc(records[..|records| - 1], last);
      assert records == records[..|records| - 1] + [last];
      if last.target in observed then
        IntersectingSnoc(rest, last);
        rest + [last]
      else rest
  }

  lemma IntersectingSnoc(entries: seq<Entry>, last: Entry)
    ensures Intersecting(entries + [last]) ==
            Intersecting(entries) + (if last.isIntersecting then {last.target} else {})
  {
    var s := entries + [last];
    forall t | t in Intersecting(s) ensures t in Intersecting(entries) || (last.isIntersecting && t == last.target) {
      var i :| 0 <= i < |s| && s[i].isIntersecting && s[i].target == t;
      if i < |entries| {
        assert entries[i] == s[i];
      }
    }
    forall t | t in Intersecting(entries) ensures t in Intersecting(s) {
      var i :| 0 <= i < |entries| && entries[i].isIntersecting && entries[i].target == t;
      assert s[i] == entries[i];
    }
    if last.isIntersecting {
      assert s[|entries|] == last;
    }
  }

  /** An effect that changes nothing more when applied a second time. */
  ghost predicate Idempotent<E(!new)>(effect: E -> E)
  {
    forall x :: effect(effect(x)) == effect(x)
  }

  /** A batch stops the observation of exactly its intersecting targets, and never adds or drops elements. */
  lemma {:induction false} RunObserved<E>(effect: E -> E, w: ObserverState<E>, entries: seq<Entry>)
    ensures Run(effect, w, entries).observed == w.observed - Intersecting(entries)
    ensures Run(effect, w, entries).elements.Keys == w.elements.Keys
    decreases |entries|
  {
    if entries != [] {
      var front, last := entries[..|entries| - 1], entries[|entries| - 1];
      RunObserved(effect, w, front);
      assert entries == front + [last];
      IntersectingSnoc(front, last);
    }
  }

  /**
   * After a batch, every element that had an intersecting entry holds the effect applied once,
   * however many such entries it had, and every other element is unchanged.
   */
  lemma {:induction false} RunElements<E(!new)>(effect: E -> E, w: ObserverState<E>, entries: seq<Entry>, t: ElementId)
    requires Idempotent(effect)
    requires t in w.elements
    ensures t in Run(effect, w, entries).elements
    ensures Run(effect, w, entries).elements[t] ==
            if t in Intersecting(entries) then effect(w.elements[t]) else w.elements[t]
    decreases |entries|
  {
    RunObserved(effect, w, entries);
    if entries != [] {
      var front, last := entries[..|entries| - 1], entries[|entries| - 1];
      RunElements(effect, w, front, t);
      RunObserved(effect, w, front);
      assert entries == front + [last];
      IntersectingSnoc(front, last);
    }
  }

  /** Several notifications in a row, each delivered against the observed set the previous one left. */
  function Notifications<E>(effect: E -> E, w: ObserverState<E>, batches: seq<seq<Entry>>): ObserverState<E>
    decreases |batches|
  {
    if batches == [] then w
    else
      var before := Notifications(effect, w, batches[..|batches| - 1]);
      Run(effect, before, Deliver(before.observed, batches[|batches| - 1]))
  }

  /**
   * The effect happens exactly once per element: a delivered intersecting record applies it
   * and ends the observation, and no later notification changes that element again.
   */
  lemma EffectExactlyOnce<E(!new)>(effect: E -> E, w: ObserverState<E>, first: seq<Entry>, later: seq<seq<Entry>>, t: ElementId)
    requires Idempotent(effect)
    requires t in w.elements && t in w.observed && t in Intersecting(first)
    ensures var w1 := Run(effect, w, Deliver(w.observed, first));
            && t !in w1.observed
            && t in w1.elements && w1.elements[t] == effect(w.elements[t])
            && var w2 := Notifications(effect, w1, later);
               t !in w2.observed && t in w2.elements && w2.elements[t] == w1.elements[t]
  {
    var w1 := Run(effect, w, Deliver(w.observed, first));
    RunObserved(effect, w, Deliver(w.observed, first));
    RunElements(effect, w, Deliver(w.observed, first), t);
    UnobservedStaysUntouched(effect, w1, later, t);
  }

  /** An element no longer observed stays unobserved and unchanged through any later notifications. */
  lemma {:induction false} UnobservedStaysUntouched<E>(effect: E -> E, w: ObserverState<E>, batches: seq<seq<Entry>>, t: ElementId)
    requires t in w.elements && t !in w.observed
    ensures var r := Notifications(effect, w, batches);
            t !in r.observed && t in r.elements && r.elements[t] == w.elements[t]
    decreases |batches|
  {
    if batches != [] {
      var front := batches[..|batches| - 1];
      UnobservedStaysUntouched(effect, w, front, t);
      var before := Notifications(effect, w, front);
      UnobservedUntouched(effect, before, batches[|batches| - 1], t);
      RunObserved(effect, before, Deliver(before.observed, batches[|batches| - 1]));
    }
  }

  /** An element no longer observed is never touched by a later batch, whatever its effect. */
  lemma {:induction false} UnobservedUntouched<E>(effect: E -> E, w: ObserverState<E>, records: seq<Entry>, t: ElementId)
    requires t in w.elements && t !in w.observed
    ensures t in Run(effect, w, Deliver(w.observed, records)).elements
    ensures Run(effect, w, Deliver(w.observed, records)).elements[t] == w.elements[t]
  {
    var entries := Deliver(w.observed, records);
    RunUntouched(effect, w, entries, t);
  }

  lemma {:induction false} RunUntouched<E>(effect: E -> E, w: ObserverState<E>, entries: seq<Entry>, t: ElementId)
    requires t in w.elements && t !in Intersecting(entries)
    ensures t in Run(effect, w, entries).elements
    ensures Run(effect, w, entries).elements[t] == w.elements[t]
    decreases |entries|
  {
    if entries != [] {
      var front, last := entries[..|entries| - 1], entries[|entries| - 1];
      assert entries == front + [last];
      IntersectingSnoc(front, last);
      RunUntouched(effect, w, front, t);
    }
  }

  /** An `IntersectionObserver` with its callback's effect, the targets it observes and the elements it acts on. */
  class OneShotObserver<E> {
    const effect: E -> E
    var observed: set<ElementId>
    var elements: map<ElementId, E>

    function Snapshot(): ObserverState<E>
      reads this
    {
      ObserverState(observed, elements)
    }

    constructor (effect: E -> E, elements: map<ElementId, E>)
      ensures this.effect == effect && Snapshot() == ObserverState({}, elements)
    {
      this.effect := effect;
      this.observed := {};
      this.elements := elements;
    }

    /** `observer.observe(target)` for each target, in order. */
    method ObserveAll(targets: seq<ElementId>)
      modifies this
      ensures Snapshot() == ObserverState(old(observed) + set i | 0 <= i < |targets| :: targets[i], old(elements))
    {
      for i := 0 to |targets|
        invariant Snapshot() == ObserverState(old(observed) + set k | 0 <= k < i :: targets[k], old(elements))
      {
        observed := observed + {targets[i]};
        assert (set k | 0 <= k < i + 1 :: targets[k]) == (set k | 0 <= k < i :: targets[k]) + {targets[i]};
      }
    }

    /** The callback: each intersecting entry gets the effect and is unobserved. */
    method Callback(entries: seq<Entry>)
      modifies this
      ensures Snapshot() == Run(effect, old(Snapshot()), entries)
    {
      for i := 0 to |entries|
        invariant Snapshot() == Run(effect, old(Snapshot()), entries[..i])
      {
        assert entries[..i + 1][..i] == entries[..i];
        var entry := entries[i];
        if entry.isIntersecting {
          var t := entry.target;
          if t in elements {
            elements := elements[t := effect(elements[t])];
          }
          observed := observed - {t};
        }
      }
      assert entries[..|entries|] == entries;
    }

    /** One notification from the browser: the callback runs on the records for still-observed targets. */
    method Notify(records: seq<Entry>)
      modifies this
      ensures Snapshot() == Run(effect, old(Snapshot()), Deliver(old(observed), records))
    {
      Callback(Deliver(observed, records));
    }
  }

  /** A revealed card: its `style.animation`. */
  datatype Card = Card(animation: string)

  const FadeInUp: string := "fadeInUp 0.6s ease forwards"

  /** The reveal effect: the card starts the fade-in animation. */
  function Reveal(card: Card): Card
  {
    card.(animation := FadeInUp)
  }

  /** A lazily loaded image: its `src`, its `data-src` attribute if any, and whether it has the class `loaded`. */
  datatype Image = Image(src: string, dataSrc: Option<string>, loaded: bool)

  /** The lazy-load effect: `img.src = img.dataset.src || img.src`, then the class `loaded`. */
  function LoadImage(img: Image): Image
  {
    var source := if img.dataSrc.Some? && img.dataSrc.value != "" then img.dataSrc.value else img.src;
    img.(src := source, loaded := true)
  }

  /** A loaded image shows its `data-src`; an absent or empty `data-src` keeps the old `src`. */
  lemma LoadImageSource(img: Image)
    ensures img.dataSrc.Some? && img.dataSrc.value != "" ==> LoadImage(img).src == img.dataSrc.value
    ensures img.dataSrc == None || img.dataSrc == Some("") ==> LoadImage(img).src == img.src
    ensures LoadImage(img).loaded && LoadImage(img).dataSrc == img.dataSrc
  {
  }

  lemma EffectsIdempotent()
    ensures Idempotent(Reveal)
    ensures Idempotent(LoadImage)
  {
  }

  /** Once an image has intersected, it shows its `data-src` through every later notification. */
  lemma ImageLoadsOnce(w: ObserverState<Image>, first: seq<Entry>, later: seq<seq<Entry>>, t: ElementId)
    requires t in w.elements && t in w.observed && t in Intersecting(first)
    requires w.elements[t].dataSrc.Some? && w.elements[t].dataSrc.value != ""
    ensures var w1 := Run(LoadImage, w, Deliver(w.observed, first));
            var w2 := Notifications(LoadImage, w1, later);
            t in w2.elements && w2.elements[t].src == w.elements[t].dataSrc.value && w2.elements[t].loaded
  {
    EffectsIdempotent();
    EffectExactlyOnce(LoadImage, w, first, later, t);
  }
}
