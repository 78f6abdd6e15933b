/** The keyboard layouts of the lock dialog: numbering the ones that share a short name while the
    list is built, showing the current one, and stepping through them. */
module Layouts {
  import opened Options

  /** An entry of the setting "sources": whether its type is "xkb", and the short name of the
      layout, if it has one. */
  datatype Entry = Entry(xkb: bool, shortName: Option<string>)

  datatype Info = Info(name: Option<string>, unique: bool, subscript: nat, index: nat)

  // ---------------------------------------------------------------- the list, as a value

  /** The last of the first n sources that has the name. */
  function LastOf(s: seq<Info>, n: nat, name: Option<string>): (r: Option<nat>)
    requires n <= |s|
    ensures r.Some? ==> r.value < n && s[r.value].name == name
    ensures forall k :: (if r.Some? then r.value + 1 else 0) <= k < n ==> s[k].name != name
  {
    if n == 0 then None else if s[n - 1].name == name then Some(n - 1) else LastOf(s, n - 1, name)
  }

  /** Only the nearest source of the same name is looked at and updated. */
  function Marked(s: seq<Info>, name: Option<string>): seq<Info> {
    match LastOf(s, |s|, name)
    case None => s
    case Some(j) => s[j := s[j].(unique := false)]
  }

  function NewInfo(s: seq<Info>, name: Option<string>, index: nat): Info {
    match LastOf(s, |s|, name)
    case None => Info(name, true, 1, index)
    case Some(j) => Info(name, false, s[j].subscript + 1, index)
  }

  function Add(s: seq<Info>, name: Option<string>, index: nat): seq<Info> {
    Marked(s, name) + [NewInfo(s, name, index)]
  }

  function Build(entries: seq<Entry>, n: nat): seq<Info>
    requires n <= |entries|
  {
    if n == 0 then []
    else
      var s := Build(entries, n - 1);
      if entries[n - 1].xkb then Add(s, entries[n - 1].shortName, n - 1) else s
  }

  // ---------------------------------------------------------------- what the numbers mean

  /** How many of the first n sources have the name. */
  function Count(s: seq<Info>, n: nat, name: Option<string>): (c: nat)
    requires n <= |s|
    ensures c <= n
  {
    if n == 0 then 0 else Count(s, n - 1, name) + if s[n - 1].name == name then 1 else 0
  }

  predicate Alone(s: seq<Info>, k: nat)
    requires k < |s|
  {
    forall m :: 0 <= m < |s| && m != k ==> s[m].name != s[k].name
  }

  predicate NumberedAt(s: seq<Info>, k: nat)
    requires k < |s|
  {
    s[k].unique == Alone(s, k) && s[k].subscript == 1 + Count(s, k, s[k].name)
  }

  predicate Numbered(s: seq<Info>) {
    forall k :: 0 <= k < |s| ==> NumberedAt(s, k)
  }

  /** The positions of the entries for xkb among the first n. */
  function Chosen(entries: seq<Entry>, n: nat): (r: seq<nat>)
    requires n <= |entries|
    ensures forall k :: 0 <= k < |r| ==> r[k] < n && entries[r[k]].xkb
    ensures forall i :: 0 <= i < n && entries[i].xkb ==> i in r
    ensures forall k, m :: 0 <= k < m < |r| ==> r[k] < r[m]
  {
    if n == 0 then []
    else if entries[n - 1].xkb then Chosen(entries, n - 1) + [n - 1]
    else Chosen(entries, n - 1)
  }

  /** The sources are those of the positions, in this order. */
  predicate Lists(s: seq<Info>, entries: seq<Entry>, chosen: seq<nat>) {
    && |s| == |chosen|
    && forall k :: 0 <= k < |s| ==>
         chosen[k] < |entries| && s[k].index == chosen[k] && s[k].name == entries[chosen[k]].shortName
  }

  lemma {:induction false} CountSame(s: seq<Info>, t: seq<Info>, n: nat, name: Option<string>)
    requires n <= |s| && n <= |t| && forall k :: 0 <= k < n ==> s[k].name == t[k].name
    ensures Count(s, n, name) == Count(t, n, name)
  {
    if n > 0 {
      CountSame(s, t, n - 1, name);
    }
  }

  lemma {:induction false} CountNone(s: seq<Info>, m: nat, n: nat, name: Option<string>)
    requires m <= n <= |s| && forall k :: m <= k < n ==> s[k].name != name
    ensures Count(s, n, name) == Count(s, m, name)
  {
    if m < n {
      CountNone(s, m, n - 1, name);
    }
  }

  /** Adding a source, entry by entry. */
  predicate Added(s: seq<Info>, t: seq<Info>, name: Option<string>, index: nat) {
    && |t| == |s| + 1
    && t[|s|].name == name && t[|s|].index == index
    && t[|s|].unique == LastOf(s, |s|, name).None?
    && (LastOf(s, |s|, name).None? ==> t[|s|].subscript == 1)
    && (LastOf(s, |s|, name).Some? ==> t[|s|].subscript == s[LastOf(s, |s|, name).value].subscript + 1)
    && forall k :: 0 <= k < |s| ==>
         && t[k].name == s[k].name && t[k].index == s[k].index && t[k].subscript == s[k].subscript
         && t[k].unique == (s[k].unique && LastOf(s, |s|, name) != Some(k))
  }

  lemma AddForm(s: seq<Info>, name: Option<string>, index: nat)
    ensures Added(s, Add(s, name, index), name, index)
  {
  }

  lemma AloneAfter(s: seq<Info>, t: seq<Info>, k: nat)
    requires k < |s| && |t| == |s| + 1 && forall m :: 0 <= m < |s| ==> t[m].name == s[m].name
    ensures Alone(t, k) == (Alone(s, k) && s[k].name != t[|s|].name)
  {
  }

  lemma LastCount(s: seq<Info>, name: Option<string>)
    ensures var last := LastOf(s, |s|, name);
            Count(s, |s|, name) == if last.Some? then Count(s, last.value, name) + 1 else 0
  {
    var last := LastOf(s, |s|, name);
    CountNone(s, if last.Some? then last.value + 1 else 0, |s|, name);
  }

  /** A source with the name that is not the last one is not alone. */
  lemma OlderNotUnique(s: seq<Info>, k: nat, name: Option<string>)
    requires k < |s|
    ensures s[k].name == name && LastOf(s, |s|, name) != Some(k) ==> !Alone(s, k)
    ensures LastOf(s, |s|, name) == Some(k) ==> s[k].name == name
  {
    var last := LastOf(s, |s|, name);
    if s[k].name == name && last != Some(k) {
      assert s[last.value].name == s[k].name;
    }
  }

  /** Updating the nearest source is enough, because earlier ones of the name are not unique already. */
  lemma OldStaysNumbered(s: seq<Info>, t: seq<Info>, name: Option<string>, index: nat, k: nat)
    requires k < |s| && NumberedAt(s, k) && Added(s, t, name, index)
    ensures NumberedAt(t, k)
  {
    CountSame(s, t, k, s[k].name);
    AloneAfter(s, t, k);
    OlderNotUnique(s, k, name);
  }

  lemma NewIsNumbered(s: seq<Info>, t: seq<Info>, name: Option<string>, index: nat)
    requires Numbered(s) && Added(s, t, name, index)
    ensures NumberedAt(t, |s|)
  {
    LastCount(s, name);
    CountSame(s, t, |s|, name);
    var last := LastOf(s, |s|, name);
    if last.Some? {
      assert NumberedAt(s, last.value);
      assert t[last.value].name == name;
    }
  }

  lemma AddKeepsNumbered(s: seq<Info>, t: seq<Info>, name: Option<string>, index: nat)
    requires Numbered(s) && Added(s, t, name, index)
    ensures Numbered(t)
  {
    NewIsNumbered(s, t, name, index);
    forall k | 0 <= k < |s| ensures NumberedAt(t, k) {
      assert NumberedAt(s, k);
      OldStaysNumbered(s, t, name, index, k);
    }
  }

  /** NUMBERING. In the list a source is unique iff no other has its name, and its subscript is one
      more than the number of earlier sources with its name. */
  lemma {:induction false} BuildIsNumbered(entries: seq<Entry>, n: nat)
    requires n <= |entries|
    ensures Numbered(Build(entries, n))
  {
    if n > 0 {
      BuildIsNumbered(entries, n - 1);
      if entries[n - 1].xkb {
        AddForm(Build(entries, n - 1), entries[n - 1].shortName, n - 1);
        AddKeepsNumbered(Build(entries, n - 1), Build(entries, n), entries[n - 1].shortName, n - 1);
      }
    }
  }

  lemma AddKeepsLists(s: seq<Info>, t: seq<Info>, entries: seq<Entry>, chosen: seq<nat>, n: nat)
    requires n < |entries| && Lists(s, entries, chosen) && Added(s, t, entries[n].shortName, n)
    ensures Lists(t, entries, chosen + [n])
  {
  }

  /** The list holds the entries for xkb, in the order of the setting. */
  lemma {:induction false} BuildLists(entries: seq<Entry>, n: nat)
    requires n <= |entries|
    ensures Lists(Build(entries, n), entries, Chosen(entries, n))
  {
    if n > 0 {
      BuildLists(entries, n - 1);
      if entries[n - 1].xkb {
        AddForm(Build(entries, n - 1), entries[n - 1].shortName, n - 1);
        AddKeepsLists(Build(entries, n - 1), Build(entries, n), entries, Chosen(entries, n - 1), n - 1);
      }
    }
  }

  /** The position that goes with the setting: that of the source it names, or the first. */
  ghost predicate AtCurrent(s: seq<Info>, source: nat, current: nat) {
    if exists k :: 0 <= k < |s| && s[k].index == current
    then source < |s| && s[source].index == current
    else source == 0
  }

  lemma AddKeepsCurrent(s: seq<Info>, t: seq<Info>, name: Option<string>, index: nat, source: nat, current: nat)
    requires Added(s, t, name, index) && AtCurrent(s, source, current)
    requires forall k :: 0 <= k < |s| ==> s[k].index < index
    ensures AtCurrent(t, if index == current then |s| else source, current)
  {
    if index != current && exists k :: 0 <= k < |s| && s[k].index == current {
      assert t[source].index == current;
    }
  }

  lemma BuildAtCurrent(entries: seq<Entry>, n: nat, source: nat, current: nat)
    requires n < |entries| && AtCurrent(Build(entries, n), source, current)
    ensures var s := Build(entries, n);
            AtCurrent(Build(entries, n + 1), if entries[n].xkb && n == current then |s| else source, current)
  {
    var s := Build(entries, n);
    if entries[n].xkb {
      BuildLists(entries, n);
      AddForm(s, entries[n].shortName, n);
      AddKeepsCurrent(s, Build(entries, n + 1), entries[n].shortName, n, source, current);
    }
  }

  // ---------------------------------------------------------------- labels

  datatype Label = Nothing | Text(name: Option<string>) | Markup(name: Option<string>, subscript: nat)

  function LabelOf(source: Info): Label {
    if source.unique then Text(source.name) else Markup(source.name, source.subscript)
  }

  lemma {:induction false} CountGrows(s: seq<Info>, k: nat, m: nat)
    requires k < m <= |s|
    ensures Count(s, k, s[k].name) < Count(s, m, s[k].name)
  {
    if k + 1 < m {
      CountGrows(s, k, m - 1);
    }
  }

  /** A source alone with its name is shown by the bare name; one of several with the same name also
      carries its number among them, counted from one. */
  lemma LabelTells(entries: seq<Entry>, k: nat)
    requires k < |Build(entries, |entries|)|
    ensures var s := Build(entries, |entries|);
            LabelOf(s[k]) == if exists m :: 0 <= m < |s| && m != k && s[m].name == s[k].name
                             then Markup(s[k].name, 1 + Count(s, k, s[k].name))
                             else Text(s[k].name)
  {
    BuildIsNumbered(entries, |entries|);
    assert NumberedAt(Build(entries, |entries|), k);
  }

  /** Two sources are never shown by the same label. */
  lemma LabelsDiffer(entries: seq<Entry>, k: nat, m: nat)
    requires var s := Build(entries, |entries|); k < m < |s|
    ensures var s := Build(entries, |entries|);
            (s[k].name, s[k].subscript) != (s[m].name, s[m].subscript) && LabelOf(s[k]) != LabelOf(s[m])
  {
    var s := Build(entries, |entries|);
    BuildIsNumbered(entries, |entries|);
    CountGrows(s, k, m);
    assert NumberedAt(s, k) && NumberedAt(s, m);
  }

  // ---------------------------------------------------------------- clicking round

  function Next(position: nat, len: nat): (r: nat)
    requires len > 0
    ensures r < len
  {
    (position + 1) % len
  }

  function Clicks(position: nat, n: nat, len: nat): (r: nat)
    requires position < len
    ensures r < len
  {
    if n == 0 then position else Next(Clicks(position, n - 1, len), len)
  }

  lemma NextForm(position: nat, len: nat)
    requires position < len
    ensures Next(position, len) == if position + 1 < len then position + 1 else 0
  {
  }

  lemma {:induction false} ClicksAdvance(position: nat, n: nat, len: nat)
    requires position < len
    ensures Clicks(position, n, len) < len
    ensures n <= len ==> Clicks(position, n, len) == if position + n < len then position + n else position + n - len
  {
    if n > 0 {
      ClicksAdvance(position, n - 1, len);
      NextForm(Clicks(position, n - 1, len), len);
    }
  }

  /** The click that gets to the target; the last one gets back. */
  function ClickTo(position: nat, target: nat, len: nat): (n: nat)
    requires position < len && target < len
    ensures 1 <= n <= len
  {
    if target > position then target - position else target + len - position
  }

  /** As many clicks as there are sources reach each position exactly once, with a known click, and
      end where they began. */
  lemma RoundTheList(position: nat, len: nat, target: nat, n: nat)
    requires position < len && target < len && 1 <= n <= len
    ensures Clicks(position, len, len) == position
    ensures Clicks(position, n, len) < len
    ensures Clicks(position, n, len) == target <==> n == ClickTo(position, target, len)
  {
    ClicksAdvance(position, len, len);
    ClicksAdvance(position, n, len);
  }

  predicate Increasing(s: seq<Info>) {
    forall k, m :: 0 <= k < m < |s| ==> s[k].index < s[m].index
  }

  lemma BuildIncreases(entries: seq<Entry>)
    ensures Increasing(Build(entries, |entries|))
  {
    BuildLists(entries, |entries|);
  }

  /** The settings that n clicks from a position on write. */
  function Written(s: seq<Info>, start: nat, n: nat): (r: seq<nat>)
    requires start < |s|
    ensures |r| == n
  {
    if n == 0 then [] else Written(s, start, n - 1) + [s[Clicks(start, n, |s|)].index]
  }

  lemma {:induction false} WrittenAt(s: seq<Info>, start: nat, n: nat, k: nat)
    requires start < |s| && 1 <= k <= n
    ensures Written(s, start, n)[k - 1] == s[Clicks(start, k, |s|)].index
  {
    if k < n {
      WrittenAt(s, start, n - 1, k);
    }
  }

  lemma EachIsWritten(s: seq<Info>, start: nat, k: nat)
    requires start < |s| && k < |s|
    ensures s[k].index in Written(s, start, |s|)
  {
    var n := ClickTo(start, k, |s|);
    RoundTheList(start, |s|, k, n);
    WrittenAt(s, start, |s|, n);
  }

  lemma NoneIsWrittenTwice(s: seq<Info>, start: nat, n: nat, m: nat)
    requires Increasing(s) && start < |s| && n < m < |s|
    ensures Written(s, start, |s|)[n] != Written(s, start, |s|)[m]
  {
    var i, j := Clicks(start, n + 1, |s|), Clicks(start, m + 1, |s|);
    RoundTheList(start, |s|, i, n + 1);
    RoundTheList(start, |s|, i, m + 1);
    WrittenAt(s, start, |s|, n + 1);
    WrittenAt(s, start, |s|, m + 1);
    assert i != j;
  }

  lemma OneMoreClick(start: nat, n: nat, len: nat)
    requires start < len
    ensures Next(Clicks(start, n, len), len) == Clicks(start, n + 1, len)
  {
  }

  // ---------------------------------------------------------------- the objects

  class InputSource {
    var name: Option<string>
    var unique: bool
    var subscript: nat
    var index: nat

    function View(): Info
      reads this
    {
      Info(name, unique, subscript, index)
    }

    constructor (name: Option<string>, index: nat)
      ensures View() == Info(name, true, 1, index)
    {
      this.name, this.index := name, index;
      unique, subscript := true, 1;
    }
  }

  ghost function Infos(sources: seq<InputSource>): (r: seq<Info>)
    reads sources
    ensures |r| == |sources| && forall k :: 0 <= k < |r| ==> r[k] == sources[k].View()
  {
    seq(|sources|, k requires 0 <= k < |sources| reads sources => sources[k].View())
  }

  class LockPlug {
    var sources: seq<InputSource>   // the array of pointers
    var source: nat                 // position of the current one
    var shown: Label
    var current: nat                // the setting "current"

    ghost predicate Valid()
      reads this`sources
    {
      forall k, m :: 0 <= k < m < |sources| ==> sources[k] != sources[m]
    }

    ghost function View(): (r: seq<Info>)
      reads this`sources, sources
      ensures |r| == |sources| && forall k :: 0 <= k < |r| ==> r[k] == sources[k].View()
    {
      Infos(sources)
    }

    constructor (current: nat)
      ensures Valid() && sources == [] && this.current == current && shown == Nothing
    {
      this.current := current;
      sources, source, shown := [], 0, Nothing;
    }

    /** gs_lock_plug_init_input_sources */
    method InitInputSources(entries: seq<Entry>)
      requires Valid() && sources == []
      modifies this`sources, this`source
      ensures Valid() && fresh(sources)
      ensures View() == Build(entries, |entries|) && AtCurrent(View(), source, current)
    {
      source := 0;
      for i := 0 to |entries|
        invariant Valid() && fresh(sources)
        invariant View() == Build(entries, i) && AtCurrent(Build(entries, i), source, current)
      {
        InitSource(entries, i);
      }
    }

    method InitSource(entries: seq<Entry>, i: nat)
      requires Valid() && i < |entries| && View() == Build(entries, i)
      requires AtCurrent(Build(entries, i), source, current)
      modifies this`sources, this`source, sources
      ensures Valid() && View() == Build(entries, i + 1)
      ensures AtCurrent(Build(entries, i + 1), source, current)
      ensures forall k :: 0 <= k < |sources| ==>
        (k < |old(sources)| && sources[k] == old(sources)[k]) || fresh(sources[k])
    {
      ghost var before, next := Build(entries, i), Build(entries, i + 1);
      assert next == if entries[i].xkb then Add(before, entries[i].shortName, i) else before;
      BuildAtCurrent(entries, i, source, current);
      if entries[i].xkb {
        AddSource(entries[i].shortName, i);
      }
    }

    /** The search runs backwards and stops at the first hit. */
    method NumberAfterLast(added: InputSource)
      requires Valid() && added !in sources && added.unique && added.subscript == 1
      modifies sources, added
      ensures View() == Marked(old(View()), added.name)
      ensures added.View() == NewInfo(old(View()), old(added.name), old(added.index))
    {
      ghost var was := View();
      var j := |sources| - 1;
      while j >= 0
        invariant -1 <= j < |sources|
        invariant View() == was && added.View() == old(added.View())
        invariant LastOf(was, j + 1, added.name) == LastOf(was, |was|, added.name)
      {
        assert was[j] == sources[j].View();
        if sources[j].name == added.name {
          sources[j].unique := false;
          added.unique := false;
          added.subscript := sources[j].subscript + 1;
          assert View() == was[j := was[j].(unique := false)];
          return;
        }
        j := j - 1;
      }
    }

    method Append(added: InputSource)
      requires Valid() && added !in sources
      modifies this`sources
      ensures Valid() && sources == old(sources) + [added] && View() == old(View()) + [added.View()]
    {
      sources := sources + [added];
    }

    method AddSource(name: Option<string>, index: nat)
      requires Valid()
      modifies this`sources, this`source, sources
      ensures Valid() && View() == Add(old(View()), name, index)
      ensures source == if index == current then |old(sources)| else old(source)
      ensures |sources| == |old(sources)| + 1 && sources[..|old(sources)|] == old(sources)
      ensures fresh(sources[|old(sources)|])
    {
      var added := new InputSource(name, index);
      NumberAfterLast(added);
      if added.index == current {
        source := |sources|;
      }
      Append(added);
    }

    ghost predicate FirstCurrent(k: nat)
      requires k < |sources|
      reads this, sources
    {
      sources[k].index == current && forall m :: 0 <= m < k ==> sources[m].index != current
    }

    /** input_sources_current_changed_cb */
    method CurrentChanged()
      requires Valid()
      modifies this`shown
      ensures forall k :: 0 <= k < |sources| && FirstCurrent(k) ==> shown == LabelOf(sources[k].View())
      ensures (forall k :: 0 <= k < |sources| ==> sources[k].index != current) ==> shown == old(shown)
    {
      for i := 0 to |sources|
        invariant shown == old(shown)
        invariant forall m :: 0 <= m < i ==> sources[m].index != current
      {
        if sources[i].index == current {
          if !sources[i].unique {
            shown := Markup(sources[i].name, sources[i].subscript);
          } else {
            shown := Text(sources[i].name);
          }
          return;
        }
      }
    }

    /** layout_indicator_clicked_cb; writing the setting reports the change back. The indicator is
        there only if there are at least two sources. */
    method Clicked()
      requires Valid() && Increasing(View()) && |sources| > 0
      modifies this`source, this`current, this`shown
      ensures source == Next(old(source), |sources|)
      ensures current == View()[source].index && shown == LabelOf(View()[source])
    {
      source := source + 1;
      source := source % |sources|;
      current := sources[source].index;
      assert forall m :: 0 <= m < source ==> View()[m].index < View()[source].index;
      CurrentChanged();
    }

    method ClickAll(ghost s: seq<Info>) returns (written: seq<nat>)
      requires Valid() && View() == s && Increasing(s) && source < |s|
      modifies this`source, this`current, this`shown
      ensures source == Clicks(old(source), |s|, |s|)
      ensures written == Written(s, old(source), |s|)
      ensures current == written[|s| - 1] == s[source].index && shown == LabelOf(s[source])
    {
      ghost var start := source;
      written := [];
      for n := 0 to |sources|
        invariant View() == s && source == Clicks(start, n, |s|) && written == Written(s, start, n)
        invariant n > 0 ==> current == written[n - 1] == s[source].index && shown == LabelOf(s[source])
      {
        OneMoreClick(start, n, |s|);
        Clicked();
        written := written + [current];
      }
    }

    /** As many clicks as there are sources: the settings they write are those of all sources, each
        once, and in the end everything is as it was, but that the label and the setting are those
        of the remembered source. */
    method ClickRound() returns (written: seq<nat>)
      requires Valid() && Increasing(View()) && source < |sources|
      modifies this`source, this`current, this`shown
      ensures source == old(source) && current == View()[source].index && shown == LabelOf(View()[source])
      ensures |written| == |sources| && current == written[|written| - 1]
      ensures forall k :: 0 <= k < |sources| ==> View()[k].index in written
      ensures forall n, m :: 0 <= n < m < |written| ==> written[n] != written[m]
    {
      ghost var start, s := source, View();
      RoundTheList(start, |s|, start, |s|);
      written := ClickAll(s);
      forall k | 0 <= k < |s| ensures s[k].index in written {
        EachIsWritten(s, start, k);
      }
      forall n, m | 0 <= n < m < |written| ensures written[n] != written[m] {
        NoneIsWrittenTwice(s, start, n, m);
      }
    }
  }

  /** A plug that has read its settings and is clicked round once. */
  method OpenAndClickRound(entries: seq<Entry>, current: nat) returns (plug: LockPlug, written: seq<nat>)
    ensures fresh(plug) && plug.Valid()
    ensures plug.View() == Build(entries, |entries|) && AtCurrent(plug.View(), plug.source, current)
    ensures |written| == |plug.sources|
    ensures forall k :: 0 <= k < |plug.sources| ==> plug.View()[k].index in written
    ensures forall n, m :: 0 <= n < m < |written| ==> written[n] != written[m]
  {
    plug := new LockPlug(current);
    plug.InitInputSources(entries);
    BuildIncreases(entries);
    written := [];
    if plug.sources != [] {
      written := plug.ClickRound();
    }
  }
}
