/** The popup's list of detections (`createList`) and the actions on it:
    which stored entries a view shows, the text filter, the newest-first
    order, "copy all", "clear list" and a click on one entry.

    `Commands.Current` is src/js/popup.js and `Commands.Content` is
    content/popup.js; they differ only in the "all tabs" view. */
module ListView {
  import opened Wrappers
  import opened Text
  import opened Lists
  import opened Rules
  import opened Exchanges
  import Aggregator
  import Commands

  /** The three radio buttons: this tab, all tabs, the previous session. */
  datatype View = ThisTab | AllTabs | Previous

  /** The active tab of the current window. */
  datatype ActiveTab = ActiveTab(id: int, incognito: bool)

  /** The stored list a view reads. */
  function Source(view: View, live: seq<Descriptor>, restore: seq<Descriptor>): seq<Descriptor> {
    if view == Previous then restore else live
  }

  /** Whether a view keeps an entry of its list. The current popup's "all
      tabs" keeps the entries whose private-window flag equals the active
      tab's, so an entry stored without a tab is never shown there. */
  predicate Shows(rev: Commands.Revision, view: View, tab: ActiveTab, d: Descriptor) {
    match view
    case ThisTab => d.tabId == tab.id
    case AllTabs => rev == Commands.Current ==> d.tab.incognito == Some(tab.incognito)
    case Previous => true
  }

  /** The filter box matches, case-insensitively, the file name, the tab
      title, the type or the host name; `f` is already lower case. */
  predicate Matches(f: string, d: Descriptor) {
    || Contains(Lower(d.filename), f)
    || Contains(Lower(d.tab.title), f)
    || Contains(Lower(d.typeName), f)
    || Contains(Lower(d.hostname), f)
  }

  /** The entries a view lists for a filter text, in stored order. */
  function Listed(rev: Commands.Revision, view: View, tab: ActiveTab, input: string,
                  live: seq<Descriptor>, restore: seq<Descriptor>): (r: seq<Descriptor>)
    ensures forall d :: d in r <==>
      d in Source(view, live, restore) && Shows(rev, view, tab, d) && (Lower(input) == "" || Matches(Lower(input), d))
    ensures |r| <= |Source(view, live, restore)|
  {
    var selected := Filter(Source(view, live, restore), (d: Descriptor) => Shows(rev, view, tab, d));
    var f := Lower(input);
    if f == "" then selected else Filter(selected, (d: Descriptor) => Matches(f, d))
  }

  datatype Display = Placeholder | Rows(entries: seq<Descriptor>)

  /** What the popup shows: the placeholder when both stored lists are
      empty or nothing is listed, else one row per listed entry, newest
      first. */
  function Shown(rev: Commands.Revision, view: View, tab: ActiveTab, input: string,
                 live: seq<Descriptor>, restore: seq<Descriptor>): (r: Display)
    ensures r.Placeholder? <==> (live == [] && restore == []) || Listed(rev, view, tab, input, live, restore) == []
    ensures r.Rows? ==> var l := Listed(rev, view, tab, input, live, restore);
      |r.entries| == |l| && forall i {:trigger r.entries[i]} :: 0 <= i < |l| ==> r.entries[i] == l[|l| - 1 - i]
  {
    var l := Listed(rev, view, tab, input, live, restore);
    if (live == [] && restore == []) || l == [] then Placeholder else Rows(Reverse(l))
  }

  function Entries(d: Display): seq<Descriptor> {
    match d
    case Placeholder => []
    case Rows(entries) => entries
  }

  /** The ids of the table rows. */
  function RowIds(entries: seq<Descriptor>): (ids: seq<string>)
    ensures |ids| == |entries| && forall i :: 0 <= i < |entries| ==> ids[i] == entries[i].requestId
  {
    Map(entries, (d: Descriptor) => d.requestId)
  }

  /** "Copy all" and "clear list" take the entries whose id is a row id. */
  function RowSelection(list: seq<Descriptor>, ids: seq<string>): (r: seq<Descriptor>)
    ensures forall d :: d in r <==> d in list && d.requestId in ids
  {
    Filter(list, (d: Descriptor) => d.requestId in ids)
  }

  /** Every row shown is taken, in the order shown. */
  lemma RowSelectionTakesShown(entries: seq<Descriptor>)
    ensures RowSelection(entries, RowIds(entries)) == entries
  {
    var ids := RowIds(entries);
    forall i | 0 <= i < |entries|
      ensures entries[i].requestId in ids
    {
      assert ids[i] == entries[i].requestId;
    }
    FilterKeepsAll(entries, (d: Descriptor) => d.requestId in ids);
  }

  /** A shown entry is one the view lists, and the other way round. */
  lemma ShownIsListed(rev: Commands.Revision, view: View, tab: ActiveTab, input: string,
                      live: seq<Descriptor>, restore: seq<Descriptor>, d: Descriptor)
    ensures d in Entries(Shown(rev, view, tab, input, live, restore)) <==>
      d in Listed(rev, view, tab, input, live, restore)
  {
    var l := Listed(rev, view, tab, input, live, restore);
    var shown := Shown(rev, view, tab, input, live, restore);
    assert Displays(shown, l) by {
      if shown.Placeholder? && live == [] && restore == [] {
        assert |Source(view, live, restore)| == 0;
      }
    }
    DisplayedMembers(shown, l, d);
  }

  /** `shown` displays the list `l`, newest first. */
  predicate Displays(shown: Display, l: seq<Descriptor>) {
    && (shown.Placeholder? ==> l == [])
    && (shown.Rows? ==> |shown.entries| == |l|)
    && (shown.Rows? ==>
          forall i {:trigger shown.entries[i]} :: 0 <= i < |l| ==> shown.entries[i] == l[|l| - 1 - i])
  }

  /** A display of a list holds the list's members. */
  lemma DisplayedMembers(shown: Display, l: seq<Descriptor>, d: Descriptor)
    requires Displays(shown, l)
    ensures d in Entries(shown) <==> d in l
  {
    if shown.Rows? && d in l {
      var i :| 0 <= i < |l| && l[i] == d;
      assert shown.entries[|l| - 1 - i] == d;
    }
  }

  /** "Clear list" deletes the rows shown, from the restore list in the
      previous-session view and from the live list otherwise; afterwards
      the same view and filter list nothing. */
  lemma {:induction false} ClearListEmptiesView(rev: Commands.Revision, view: View, tab: ActiveTab, input: string,
                                                s: Aggregator.State)
    ensures var shown := Entries(Shown(rev, view, tab, input, s.live, s.restore));
      var o := Aggregator.Delete(s, RowIds(RowSelection(shown, RowIds(shown))), view == Previous);
      Listed(rev, view, tab, input, o.state.live, o.state.restore) == []
  {
    var shown := Entries(Shown(rev, view, tab, input, s.live, s.restore));
    RowSelectionTakesShown(shown);
    var ids := RowIds(shown);
    var o := Aggregator.Delete(s, ids, view == Previous);
    var before := Listed(rev, view, tab, input, s.live, s.restore);
    var after := Listed(rev, view, tab, input, o.state.live, o.state.restore);
    forall d | d in before
      ensures d.requestId in ids
    {
      ShownIsListed(rev, view, tab, input, s.live, s.restore, d);
      var i :| 0 <= i < |shown| && shown[i] == d;
      assert ids[i] == d.requestId;
    }
    HeadIsMember(after);
    assert forall d :: d in after ==> d in before && d.requestId !in ids;
  }

  /** The older popup's "all tabs" view lists every live entry; the current
      one leaves out entries of the other kind of window. */
  lemma AllTabsAcrossRevisions(tab: ActiveTab, live: seq<Descriptor>, restore: seq<Descriptor>, d: Descriptor)
    requires d in live
    ensures d in Listed(Commands.Content, AllTabs, tab, "", live, restore)
    ensures d in Listed(Commands.Current, AllTabs, tab, "", live, restore) <==> d.tab.incognito == Some(tab.incognito)
  {
  }

  /** With no filter and every entry in view, the first row is the newest
      entry. */
  lemma NewestFirst(tab: ActiveTab, live: seq<Descriptor>, restore: seq<Descriptor>)
    requires live != []
    ensures Shown(Commands.Content, AllTabs, tab, "", live, restore) == Rows(Reverse(live))
    ensures Entries(Shown(Commands.Content, AllTabs, tab, "", live, restore))[0] == Last(live)
  {
    FilterKeepsAll(live, (d: Descriptor) => Shows(Commands.Content, AllTabs, tab, d));
    assert Lower("") == "";
  }

  /** A click on an entry: the current popup downloads a file when direct
      download is on and copies everything else; the older one always
      copies. */
  datatype Activation = Download(entry: Descriptor) | Copy(entries: seq<Descriptor>)

  function Activate(rev: Commands.Revision, downloadDirectPref: bool, d: Descriptor): (a: Activation)
    ensures a.Download? <==> rev == Commands.Current && downloadDirectPref && d.category == Files
    ensures a.Download? ==> a.entry == d
    ensures a.Copy? ==> a.entries == [d]
  {
    if rev == Commands.Current && downloadDirectPref && d.category == Files then Download(d) else Copy([d])
  }

  /** A click that copies copies what "copy all" copies on a list showing
      only that entry: the entry's own text and its own "incompatible" flag,
      and its file name for the notification. */
  lemma ClickCopiesAsCopyAll(rev: Commands.Revision, downloadDirectPref: bool, d: Descriptor,
                             s: Commands.Settings, stamp: string)
    ensures Activate(rev, downloadDirectPref, d).Copy? ==>
      var es := Activate(rev, downloadDirectPref, d).entries;
      && es == RowSelection([d], RowIds([d]))
      && Commands.CopyAll(rev, s, es, [stamp]).text == Commands.Synthesize(rev, s, d, stamp).text
      && (Commands.CopyAll(rev, s, es, [stamp]).degraded <==> Commands.Resolve(rev, s, d).degraded)
      && Commands.CopyAll(rev, s, es, [stamp]).filenames == [d.filename]
  {
    if Activate(rev, downloadDirectPref, d).Copy? {
      RowSelectionTakesShown([d]);
      Commands.BatchOfOne(rev, s, d, stamp);
    }
  }
}
