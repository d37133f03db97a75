/** The note list of the main window: which summaries `refresh_notes_list` puts in
    it for the current search text and category selection, and which note a line
    of it stands for. */
module NoteList {
  import opened Models
  import opened Text
  import opened Tables

  /** The entry of the category box that switches the filter off. */
  const AllCategories: string := "All"

  ghost predicate SummariesNewestFirst(ss: seq<Summary>)
  {
    forall i, j :: 0 <= i < j < |ss| ==> ss[i].modifiedAt >= ss[j].modifiedAt
  }

  /** `[note for note in notes if note[2] == selected_category]`. */
  function InCategory(ss: seq<Summary>, category: string): seq<Summary>
  {
    if ss == [] then []
    else (if ss[0].category == category then [ss[0]] else []) + InCategory(ss[1..], category)
  }

  /** The filter keeps exactly the summaries of that category. */
  lemma {:induction false} InCategoryMembers(ss: seq<Summary>, category: string)
    ensures forall s :: s in InCategory(ss, category) <==> s in ss && s.category == category
  {
    if ss != [] {
      InCategoryMembers(ss[1..], category);
      assert ss == [ss[0]] + ss[1..];
    }
  }

  lemma {:induction false} InCategoryBounded(ss: seq<Summary>, category: string, t: Timestamp)
    requires forall k :: 0 <= k < |ss| ==> ss[k].modifiedAt <= t
    ensures forall k :: 0 <= k < |InCategory(ss, category)| ==> InCategory(ss, category)[k].modifiedAt <= t
  {
    if ss != [] {
      InCategoryBounded(ss[1..], category, t);
    }
  }

  /** The filter keeps the newest-first order of the list it filters. */
  lemma {:induction false} InCategoryNewestFirst(ss: seq<Summary>, category: string)
    requires SummariesNewestFirst(ss)
    ensures SummariesNewestFirst(InCategory(ss, category))
  {
    if ss != [] {
      var rest := InCategory(ss[1..], category);
      InCategoryNewestFirst(ss[1..], category);
      InCategoryBounded(ss[1..], category, ss[0].modifiedAt);
      if ss[0].category == category {
        var r := [ss[0]] + rest;
        assert InCategory(ss, category) == r;
        forall i, j | 0 <= i < j < |r| ensures r[i].modifiedAt >= r[j].modifiedAt {
          assert r[j] == rest[j - 1];
          if i > 0 {
            assert r[i] == rest[i - 1];
          }
        }
      } else {
        assert InCategory(ss, category) == rest;
      }
    }
  }

  /** The category filter is on unless the selection is empty or "All". */
  predicate FilterOn(selected: string)
  {
    selected != "" && selected != AllCategories
  }

  /** The list before the category filter: the search result for the stripped
      search text, or every note when that is empty. */
  function Listed(notes: seq<NoteRow>, query: string): seq<Summary>
    requires NoteIdsIncreasing(notes)
  {
    var q := Strip(query);
    if q != "" then Search(notes, q) else Listing(notes)
  }

  /** The lines of the note list after `refresh_notes_list`, top to bottom. */
  function Shown(notes: seq<NoteRow>, query: string, selected: string): seq<Summary>
    requires NoteIdsIncreasing(notes)
  {
    var listed := Listed(notes, query);
    if FilterOn(selected) then InCategory(listed, selected) else listed
  }

  /** A stored note is in the list exactly when it matches the stripped search text
      (any note does when that is empty) and has the selected category (any
      category does when the filter is off); nothing else is in it, and it runs
      newest first. */
  lemma ShownMembers(notes: seq<NoteRow>, query: string, selected: string)
    requires NoteIdsIncreasing(notes)
    ensures forall k :: 0 <= k < |notes| ==>
      (SummaryOf(notes[k]) in Shown(notes, query, selected) <==>
         (Strip(query) == "" || Matches(notes[k], Strip(query)))
         && (!FilterOn(selected) || notes[k].category == selected))
    ensures forall s :: s in Shown(notes, query, selected) ==> s in Listing(notes)
    ensures SummariesNewestFirst(Shown(notes, query, selected))
  {
    var q := Strip(query);
    var listed := Listed(notes, query);
    if q != "" {
      SearchMembers(notes, q);
      var all := Listing(notes);
      KeepIdsMembers(all, MatchingIds(notes, q));
      KeepIdsNewestFirst(all, MatchingIds(notes, q));
    }
    InCategoryMembers(listed, selected);
    if FilterOn(selected) {
      InCategoryNewestFirst(listed, selected);
    }
  }

  lemma {:induction false} KeepIdsBounded(ss: seq<Summary>, ids: set<nat>, t: Timestamp)
    requires forall k :: 0 <= k < |ss| ==> ss[k].modifiedAt <= t
    ensures forall k :: 0 <= k < |KeepIds(ss, ids)| ==> KeepIds(ss, ids)[k].modifiedAt <= t
  {
    if ss != [] {
      KeepIdsBounded(ss[1..], ids, t);
    }
  }

  lemma {:induction false} KeepIdsNewestFirst(ss: seq<Summary>, ids: set<nat>)
    requires SummariesNewestFirst(ss)
    ensures SummariesNewestFirst(KeepIds(ss, ids))
  {
    if ss != [] {
      var rest := KeepIds(ss[1..], ids);
      KeepIdsNewestFirst(ss[1..], ids);
      KeepIdsBounded(ss[1..], ids, ss[0].modifiedAt);
      if ss[0].id in ids {
        var r := [ss[0]] + rest;
        assert KeepIds(ss, ids) == r;
        forall i, j | 0 <= i < j < |r| ensures r[i].modifiedAt >= r[j].modifiedAt {
          assert r[j] == rest[j - 1];
          if i > 0 {
            assert r[i] == rest[i - 1];
          }
        }
      } else {
        assert KeepIds(ss, ids) == rest;
      }
    }
  }

  /** The entries of the category box: "All", then `get_categories()`. */
  function CategoryChoices(notes: seq<NoteRow>): (r: seq<string>)
    ensures |r| >= 1 && r[0] == AllCategories
    ensures forall c :: c in r[1..] <==> c != "" && exists row :: row in notes && row.category == c
  {
    [AllCategories] + Categories(notes)
  }

  /** The selection after a refresh: "All" when nothing was selected. */
  function SelectionAfterRefresh(selected: string): (r: string)
    ensures r != ""
    ensures !FilterOn(r) <==> !FilterOn(selected)
    ensures FilterOn(selected) ==> r == selected
  {
    if selected == "" then AllCategories else selected
  }

  // ---------------------------------------------------------------------------
  // From a line of the list to a note

  /** `on_note_select` and `delete_note` as written: the line number of the
      selection is looked up in `load_all_notes()`, whatever the list shows. */
  function SelectedAsWritten(notes: seq<NoteRow>, index: nat): Option<nat>
  {
    var all := Listing(notes);
    if index < |all| then Some(all[index].id) else None
  }

  /** With a category selected, the first line of the list shows one note and
      selecting it picks another: the newest note of any category. */
  lemma SelectionAsWrittenPicksOtherNote()
    ensures var notes := [NoteRow(1, "Plan", "", Normal, "work", 0, 2),
                          NoteRow(2, "Shopping", "", Normal, "home", 0, 1)];
      && NoteIdsIncreasing(notes)
      && Shown(notes, "", "home") == [Summary(2, "Shopping", "home", 1, Normal)]
      && SelectedAsWritten(notes, 0) == Some(1)
  {
    var plan := NoteRow(1, "Plan", "", Normal, "work", 0, 2);
    var shopping := NoteRow(2, "Shopping", "", Normal, "home", 0, 1);
    var notes := [plan, shopping];
    assert notes[1..] == [shopping];
    assert ByRecency([shopping]) == [shopping];
    assert ByRecency(notes) == [plan, shopping];
    var all := Listing(notes);
    assert all == [SummaryOf(plan), SummaryOf(shopping)];
    assert Strip("") == "";
    assert all[1..] == [SummaryOf(shopping)];
    assert "work"[0] != "home"[0];
    assert InCategory(all, "home") == InCategory(all[1..], "home");
    assert InCategory(all[1..], "home") == [SummaryOf(shopping)] + InCategory([], "home");
  }

  /** The id of the note on line `index` of the list as it is shown. */
  function Selected(notes: seq<NoteRow>, query: string, selected: string, index: nat): Option<nat>
    requires NoteIdsIncreasing(notes)
  {
    var shown := Shown(notes, query, selected);
    if index < |shown| then Some(shown[index].id) else None
  }

  /** Selecting a line picks the note that line shows: it loads, with the title,
      category, mode and modification time printed on the line. */
  lemma SelectedOpensShownNote(notes: seq<NoteRow>, tasks: seq<TaskRow>, query: string, selected: string, index: nat)
    requires NoteIdsIncreasing(notes) && index < |Shown(notes, query, selected)|
    ensures var s := Shown(notes, query, selected)[index];
      && Selected(notes, query, selected, index) == Some(s.id)
      && LoadFrom(notes, tasks, s.id).Some?
      && LoadFrom(notes, tasks, s.id).value.title == s.title
      && LoadFrom(notes, tasks, s.id).value.category == s.category
      && LoadFrom(notes, tasks, s.id).value.mode == s.mode
      && LoadFrom(notes, tasks, s.id).value.modifiedAt == Some(s.modifiedAt)
  {
    var s := Shown(notes, query, selected)[index];
    ShownMembers(notes, query, selected);
    assert s in Listing(notes);
    var k :| 0 <= k < |notes| && s == SummaryOf(notes[k]);
    FindNoteUnique(notes, k);
  }
}
