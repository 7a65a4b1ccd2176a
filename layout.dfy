/**
 * The layout: one hidden time-series panel per service, in the order of
 * the service names, each rooted at `/<service>/`, stacked with collapsed
 * selection and time panels, next to a panel for the thumbnail image.
 * Building it also logs a named series line per service.
 */
module Layout {
  import opened Wrappers
  import opened Recording

  const ThumbnailView := View("thumbnail", "/thumbnail", None)

  // ---------------------------------------------------------------------
  // Python's string order: code point by code point, a prefix first

  predicate StrLe(a: string, b: string)
    decreases |a|
  {
    if a == [] then true
    else if b == [] then false
    else if a[0] != b[0] then a[0] < b[0]
    else StrLe(a[1..], b[1..])
  }

  lemma {:induction false} StrLeTotal(a: string, b: string)
    ensures StrLe(a, b) || StrLe(b, a)
    decreases |a|
  {
    if a != [] && b != [] && a[0] == b[0] {
      StrLeTotal(a[1..], b[1..]);
    }
  }

  lemma {:induction false} StrLeTransitive(a: string, b: string, c: string)
    requires StrLe(a, b) && StrLe(b, c)
    ensures StrLe(a, c)
    decreases |a|
  {
    if a != [] && a[0] == b[0] && b[0] == c[0] {
      StrLeTransitive(a[1..], b[1..], c[1..]);
    }
  }

  lemma {:induction false} StrLeAntisymmetric(a: string, b: string)
    requires StrLe(a, b) && StrLe(b, a)
    ensures a == b
    decreases |a|
  {
    if a != [] {
      StrLeAntisymmetric(a[1..], b[1..]);
      assert a == [a[0]] + a[1..] && b == [b[0]] + b[1..];
    }
  }

  predicate Sorted(s: seq<string>) {
    forall i, j :: 0 <= i < j < |s| ==> StrLe(s[i], s[j])
  }

  // ---------------------------------------------------------------------
  // `sorted(SERVICE_LIST.keys())`

  /** Insertion of one name into an ordered list, before the first name
      it does not follow. */
  function Insert(x: string, s: seq<string>): seq<string>
    decreases |s|
  {
    if s == [] then [x]
    else if StrLe(x, s[0]) then [x] + s
    else [s[0]] + Insert(x, s[1..])
  }

  lemma {:induction false} InsertPermutes(x: string, s: seq<string>)
    ensures multiset(Insert(x, s)) == multiset(s) + multiset{x}
    decreases |s|
  {
    if s != [] && !StrLe(x, s[0]) {
      InsertPermutes(x, s[1..]);
      assert s == [s[0]] + s[1..];
    }
  }

  lemma SortedCons(x: string, s: seq<string>)
    requires Sorted(s)
    requires forall j :: 0 <= j < |s| ==> StrLe(x, s[j])
    ensures Sorted([x] + s)
  {
    var r := [x] + s;
    forall i, j | 0 <= i < j < |r| ensures StrLe(r[i], r[j]) {
      assert r[j] == s[j - 1];
      if i > 0 {
        assert r[i] == s[i - 1];
      }
    }
  }

  lemma {:induction false} InsertSorted(x: string, s: seq<string>)
    requires Sorted(s)
    ensures Sorted(Insert(x, s))
    decreases |s|
  {
    if s == [] {
    } else if StrLe(x, s[0]) {
      forall j | 0 <= j < |s| ensures StrLe(x, s[j]) {
        if j > 0 {
          StrLeTransitive(x, s[0], s[j]);
        }
      }
      SortedCons(x, s);
    } else {
      StrLeTotal(x, s[0]);
      assert Sorted(s[1..]);
      InsertSorted(x, s[1..]);
      InsertPermutes(x, s[1..]);
      var rest := Insert(x, s[1..]);
      forall j | 0 <= j < |rest| ensures StrLe(s[0], rest[j]) {
        assert rest[j] in multiset(rest);
        if rest[j] != x {
          assert rest[j] in multiset(s[1..]);
          var k :| 0 <= k < |s[1..]| && s[1..][k] == rest[j];
          assert s[k + 1] == rest[j];
        }
      }
      SortedCons(s[0], rest);
    }
  }

  /** The service names in ascending order, each as often as given. */
  function SortedTopics(keys: seq<string>): (r: seq<string>)
    ensures Sorted(r) && multiset(r) == multiset(keys)
    decreases |keys|
  {
    if keys == [] then []
    else
      var n := |keys| - 1;
      assert keys == keys[..n] + [keys[n]];
      InsertSorted(keys[n], SortedTopics(keys[..n]));
      InsertPermutes(keys[n], SortedTopics(keys[..n]));
      Insert(keys[n], SortedTopics(keys[..n]))
  }

  // ---------------------------------------------------------------------
  // `createBlueprint`

  /** The panel for one service: named after it, rooted at `/<service>/`,
      hidden. */
  function SeriesView(topic: string): View {
    View(topic, "/" + topic + "/", Some(false))
  }

  /** The layout for services already in order. */
  function LayoutOf(topics: seq<string>): Blueprint {
    Blueprint(seq(|topics|, i requires 0 <= i < |topics| => SeriesView(topics[i])),
              false, false, ThumbnailView)
  }

  /** `createBlueprint`: walks the services in name order, adding a panel and
      logging a series line for each, and rebuilds the layout after each
      one. With no services the layout is never bound and reading it raises. */
  method CreateBlueprint(serviceList: seq<string>)
    returns (r: Result<Blueprint, PyError>, events: seq<Event>)
    ensures var topics := SortedTopics(serviceList);
      |events| == |topics| &&
      forall i :: 0 <= i < |topics| ==> events[i] == SeriesLine(topics[i], topics[i])
    ensures serviceList == [] ==> r == Err(UnboundLocalError("blueprint"))
    ensures serviceList != [] ==> r == Ok(LayoutOf(SortedTopics(serviceList)))
  {
    var topics := SortedTopics(serviceList);
    var timeSeriesViews: seq<View> := [];
    var blueprint: Option<Blueprint> := None;
    events := [];
    for k := 0 to |topics|
      invariant |timeSeriesViews| == k && |events| == k
      invariant forall i :: 0 <= i < k ==> timeSeriesViews[i] == SeriesView(topics[i])
      invariant forall i :: 0 <= i < k ==> events[i] == SeriesLine(topics[i], topics[i])
      invariant k == 0 ==> blueprint == None
      invariant k > 0 ==> blueprint == Some(LayoutOf(topics[..k]))
    {
      var topic := topics[k];
      timeSeriesViews := timeSeriesViews + [SeriesView(topic)];
      events := events + [SeriesLine(topic, topic)];
      blueprint := Some(Blueprint(timeSeriesViews, false, false, ThumbnailView));
      assert timeSeriesViews == LayoutOf(topics[..k + 1]).timeSeries;
    }
    if blueprint.None? {
      assert |topics| == 0;
      assert |serviceList| == |multiset(serviceList)| == 0;
      r := Err(UnboundLocalError("blueprint"));
    } else {
      assert topics[..|topics|] == topics;
      assert multiset(serviceList) != multiset{} by {
        assert serviceList[0] in multiset(serviceList);
      }
      r := Ok(blueprint.value);
    }
  }

  /** A name has a panel exactly when it is one of the ordered topics. */
  lemma PanelFor(topics: seq<string>, t: string)
    ensures t in topics <==> SeriesView(t) in LayoutOf(topics).timeSeries
  {
    var views := LayoutOf(topics).timeSeries;
    if SeriesView(t) in views {
      var i :| 0 <= i < |views| && views[i] == SeriesView(t);
      assert topics[i] == t;
    }
    if t in topics {
      var i :| 0 <= i < |topics| && topics[i] == t;
      assert views[i] == SeriesView(t);
    }
  }

  /** One panel per service — as many panels as names given — each service
      has a panel and each panel is a service's, rooted at `/<service>/` and
      hidden, and the panels run in ascending name order. */
  lemma LayoutCoversServices(serviceList: seq<string>)
    ensures var views := LayoutOf(SortedTopics(serviceList)).timeSeries;
      |views| == |serviceList| &&
      (forall t :: t in serviceList <==> SeriesView(t) in views) &&
      (forall i, j :: 0 <= i < j < |views| ==> StrLe(views[i].name, views[j].name)) &&
      (forall i :: 0 <= i < |views| ==> views[i].origin == "/" + views[i].name + "/" && views[i].visible == Some(false))
  {
    var topics := SortedTopics(serviceList);
    assert |topics| == |multiset(topics)| == |serviceList|;
    forall t ensures t in serviceList <==> SeriesView(t) in LayoutOf(topics).timeSeries {
      assert t in serviceList <==> t in multiset(topics);
      PanelFor(topics, t);
    }
  }
}
