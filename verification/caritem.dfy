/**
  The interaction state one `CarItem` row keeps: whether its detail region is
  expanded, and which detail image it shows. Both live in the row's own
  `remember` slots; here they are one immutable record, and every click
  produces the next record.
 */
module CarItem {
  import opened Carousel
  import opened CarData

  datatype RowState = RowState(expanded: bool, index: int)

  /** The state a row is created with: collapsed, on the first image. */
  const Initial := RowState(false, 0)

  /** The three buttons of a row. */
  datatype Event = Toggle | PreviousImage | NextImage

  /** The carousel index may be used to subscript the `n` detail images. */
  predicate Valid(s: RowState, n: int) {
    ValidIndex(s.index, n)
  }

  /** The expand/collapse button. Collapsing keeps the current image. */
  function ToggleExpanded(s: RowState): (r: RowState)
    ensures r.expanded == !s.expanded
    ensures r.index == s.index
  {
    s.(expanded := !s.expanded)
  }

  /** One click on a row whose car has `n` detail images. */
  function Step(s: RowState, e: Event, n: int): (r: RowState)
    // only the expand button changes the expansion
    ensures r.expanded != s.expanded <==> e == Toggle
    // the expand button never moves the carousel
    ensures e == Toggle ==> r.index == s.index
    // on a valid state, a carousel button moves the index exactly when there
    // is more than one image
    ensures Valid(s, n) && e != Toggle ==> (r.index != s.index <==> n > 1)
    ensures Valid(s, n) ==> Valid(r, n)
  {
    match e
    case Toggle => ToggleExpanded(s)
    case PreviousImage => s.(index := Previous(s.index, n))
    case NextImage => s.(index := Next(s.index, n))
  }

  /** The Previous/Next buttons are composed only inside the expanded region,
      so only the expand button can be clicked on a collapsed row. */
  predicate Enabled(s: RowState, e: Event) {
    e == Toggle || s.expanded
  }

  /** The number of expand/collapse clicks in a sequence of clicks. */
  function ToggleCount(es: seq<Event>): nat
  {
    if es == [] then 0 else (if es[0] == Toggle then 1 else 0) + ToggleCount(es[1..])
  }

  /** The row state after a sequence of clicks. */
  function Run(s: RowState, es: seq<Event>, n: int): (r: RowState)
    // the expansion flag records the parity of the expand/collapse clicks
    ensures r.expanded == (s.expanded != (ToggleCount(es) % 2 == 1))
    ensures Valid(s, n) ==> Valid(r, n)
    decreases |es|
  {
    if es == [] then s else Run(Step(s, es[0], n), es[1..], n)
  }

  /** Every click of `es` is on a button that is on screen when it is clicked. */
  ghost predicate Accepted(s: RowState, es: seq<Event>, n: int)
    decreases |es|
  {
    es == [] || (Enabled(s, es[0]) && Accepted(Step(s, es[0], n), es[1..], n))
  }

  /** A state some sequence of on-screen clicks leads to from a fresh row. */
  ghost predicate Reachable(s: RowState, n: int)
  {
    exists es :: Accepted(Initial, es, n) && Run(Initial, es, n) == s
  }

  /** The fresh row state is valid for every car with at least one image. */
  lemma InitialValid(n: int)
    requires n >= 1
    ensures Valid(Initial, n)
    ensures !Initial.expanded
  {
  }

  /** Two clicks on the expand button restore the row exactly. */
  lemma ToggleInvolutive(s: RowState, n: int)
    ensures Step(Step(s, Toggle, n), Toggle, n) == s
  {
  }

  /** While a row is collapsed, no click that can happen moves its carousel. */
  lemma CollapsedKeepsIndex(s: RowState, e: Event, n: int)
    requires !s.expanded && Enabled(s, e)
    ensures Step(s, e, n).index == s.index
  {
  }

  lemma {:induction false} RunAppend(s: RowState, a: seq<Event>, b: seq<Event>, n: int)
    ensures Run(s, a + b, n) == Run(Run(s, a, n), b, n)
    ensures Accepted(s, a + b, n) <==> Accepted(s, a, n) && Accepted(Run(s, a, n), b, n)
    decreases |a|
  {
    if a != [] {
      assert (a + b)[0] == a[0];
      assert (a + b)[1..] == a[1..] + b;
      RunAppend(Step(s, a[0], n), a[1..], b, n);
    } else {
      assert a + b == b;
    }
  }

  /** On an expanded row, `k` clicks of "Next Image" show the image `k`
      positions further on, and all of them are on-screen clicks. */
  lemma {:induction false} RunNexts(i: int, n: int, k: nat)
    ensures Run(RowState(true, i), seq(k, _ => NextImage), n) == RowState(true, NextTimes(i, n, k))
    ensures Accepted(RowState(true, i), seq(k, _ => NextImage), n)
  {
    var s := RowState(true, i);
    if k > 0 {
      var nexts: seq<Event> := seq(k, _ => NextImage);
      assert nexts == seq(k - 1, _ => NextImage) + [NextImage];
      RunNexts(i, n, k - 1);
      RunAppend(s, seq(k - 1, _ => NextImage), [NextImage], n);
      var mid := RowState(true, NextTimes(i, n, k - 1));
      assert [NextImage][1..] == [];
      assert Run(mid, [NextImage], n) == Run(Step(mid, NextImage, n), [], n);
    }
  }

  /** The reachable row states are exactly the valid ones: a row can be in
      either expansion state on any of its images, and on nothing else. In
      particular the subscript into the detail images is always in range. */
  lemma ReachableIffValid(s: RowState, n: int)
    requires n >= 1
    ensures Reachable(s, n) <==> Valid(s, n)
  {
    if Reachable(s, n) {
      var es :| Accepted(Initial, es, n) && Run(Initial, es, n) == s;
      InitialValid(n);
    }
    if Valid(s, n) {
      var nexts: seq<Event> := seq(s.index, _ => NextImage);
      var tail: seq<Event> := if s.expanded then [] else [Toggle];
      var open := RowState(true, 0);
      assert Run(Initial, [Toggle], n) == open by {
        assert [Toggle][1..] == [];
      }
      assert Accepted(Initial, [Toggle], n) by {
        assert [Toggle][1..] == [];
      }
      RunNexts(0, n, s.index);
      NextTimesFromFirst(n, s.index);
      var shown := RowState(true, s.index);
      assert Run(shown, tail, n) == s && Accepted(shown, tail, n) by {
        if !s.expanded {
          assert tail[1..] == [];
        }
      }
      RunAppend(Initial, [Toggle], nexts, n);
      RunAppend(Initial, [Toggle] + nexts, tail, n);
      assert Accepted(Initial, [Toggle] + nexts + tail, n) && Run(Initial, [Toggle] + nexts + tail, n) == s;
    }
  }

  /** What the row draws below its summary line. */
  datatype DetailRegion = Hidden | Shown(image: ImageRef)

  /** What one row draws: the summary line is always there; the description,
      the current detail image and the Previous/Next buttons only when
      expanded. */
  datatype RowView = RowView(
    name: string,
    price: string,
    features: seq<string>,
    icon: ImageRef,
    detail: DetailRegion)

  /** Composing a row. The detail image is looked up only when the row is
      expanded, so only then must the index be a valid subscript. */
  function Render(car: Car, s: RowState): (v: RowView)
    requires s.expanded ==> ValidIndex(s.index, ImageCount(car))
    ensures v.name == car.name && v.price == car.price
    ensures v.features == car.features && v.icon == car.icon
    ensures v.detail.Shown? <==> s.expanded
    // the image shown is the carousel's current one
    ensures v.detail.Shown? ==> v.detail.image == car.detailImages[s.index]
  {
    if s.expanded then
      RowView(car.name, car.price, car.features, car.icon, Shown(car.detailImages[s.index]))
    else
      RowView(car.name, car.price, car.features, car.icon, Hidden)
  }

  /** A fresh row followed through a sequence of clicks, composing it after
      each one; every composition finds its detail image, and it is the image
      the carousel index points at after that click. */
  method Replay(car: Car, es: seq<Event>) returns (s: RowState, views: seq<RowView>)
    requires HasDetailImages(car)
    ensures s == Run(Initial, es, ImageCount(car))
    ensures Valid(s, ImageCount(car))
    ensures |views| == |es|
    ensures forall k :: 0 <= k < |views| ==>
      (views[k].detail.Shown? <==> Run(Initial, es[..k + 1], ImageCount(car)).expanded)
    // each composition shows the image at the index the clicks so far lead to
    ensures forall k :: 0 <= k < |views| ==> views[k].detail.Shown? ==>
      views[k].detail.image == car.detailImages[Run(Initial, es[..k + 1], ImageCount(car)).index]
  {
    var n := ImageCount(car);
    s := Initial;
    views := [];
    var k := 0;
    while k < |es|
      invariant 0 <= k <= |es|
      invariant s == Run(Initial, es[..k], n)
      invariant Valid(s, n)
      invariant |views| == k
      invariant forall j :: 0 <= j < k ==>
        (views[j].detail.Shown? <==> Run(Initial, es[..j + 1], n).expanded)
      invariant forall j :: 0 <= j < k ==> views[j].detail.Shown? ==>
        views[j].detail.image == car.detailImages[Run(Initial, es[..j + 1], n).index]
    {
      RunAppend(Initial, es[..k], [es[k]], n);
      assert es[..k + 1] == es[..k] + [es[k]];
      assert [es[k]][1..] == [];
      s := Step(s, es[k], n);
      views := views + [Render(car, s)];
      k := k + 1;
    }
    assert es[..k] == es;
  }
}
