/**
 The data side of `EnhancedBlogApp`: the post list, the search view over it
 (`filtered_posts` with `filtered_indices`, parallel lists naming, for each
 row of the list box, the post object shown and its position in `posts`),
 the selected post, and the two JSON files. The widgets are replaced by the
 values they would supply: the search box text, the editor text, the category
 and tags entries, the row clicked, the answer to a confirmation dialog and
 the clock reading `now`.
 */
module Store {
  import opened Text
  import opened Posts
  import opened View

  /** What a file name holds on disk. */
  datatype FileState = Missing | Unreadable | Saved(records: seq<Record>)

  /** How a user action ends, as the application reports it. */
  datatype Outcome =
    | Done
    | Cancelled     // the title dialog was cancelled, or a confirmation was declined
    | EmptyTitle    // "Title cannot be empty!"
    | EmptyContent  // "Content cannot be empty!"
    | NoSelection   // "Select a post to edit!" / "... to delete!"
    | NoFile        // no posts file at start-up, or "No backup file found!"
    | LoadFailed    // the file could not be read or one of its records was refused
    | IndexError    // the handler raised IndexError on a stale index; nothing was changed

  /** What selecting a row puts into the editor: the content, the category and the tags joined with ", ". */
  datatype Editor = Editor(content: string, category: string, tagsText: string)

  datatype Selection = NoRow | Shown(editor: Editor) | SelectFailed

  /** What `filtered_indices` and `filtered_posts` are meant to be: entry `k` is the object at position `fi[k]`, no position twice. */
  predicate Aligned(fi: seq<nat>, fp: seq<BlogPost>, ps: seq<BlogPost>) {
    && |fp| == |fi|
    && (forall k :: 0 <= k < |fi| ==> fi[k] < |ps| && fp[k] == ps[fi[k]])
    && Distinct(fi)
  }

  /** Deleting a post the view shows, with the index shift of `delete_post`, keeps the two lists aligned. */
  lemma AlignedAfterDeleteShown(fi: seq<nat>, fp: seq<BlogPost>, ps: seq<BlogPost>, i: nat)
    requires Aligned(fi, fp, ps) && i < |ps| && i in fi
    ensures var k := IndexOf(fi, i);
            Aligned(ShiftDown(RemoveAt(fi, k), i), RemoveAt(fp, k), RemoveAt(ps, i))
  {
    var k := IndexOf(fi, i);
    var rest := RemoveAt(fi, k);
    DistinctAfterRemove(fi, k);
    DistinctAfterShift(rest, i);
    var fi' := ShiftDown(rest, i);
    var fp' := RemoveAt(fp, k);
    var ps' := RemoveAt(ps, i);
    forall j | 0 <= j < |fi'| ensures fi'[j] < |ps'| && fp'[j] == ps'[fi'[j]] {
      assert rest[j] == fi[if j < k then j else j + 1] != i;
    }
  }

  /**
   Deleting a post the view hides leaves both view lists as they were; they stay
   aligned exactly when every shown index lies below the deleted one.
   */
  lemma AlignedAfterDeleteHiddenIff(fi: seq<nat>, fp: seq<BlogPost>, ps: seq<BlogPost>, i: nat)
    requires Aligned(fi, fp, ps) && Distinct(ps) && i < |ps| && i !in fi
    ensures Aligned(fi, fp, RemoveAt(ps, i)) <==> forall k :: 0 <= k < |fi| ==> fi[k] < i
  {
    if exists k :: 0 <= k < |fi| && fi[k] >= i {
      var k :| 0 <= k < |fi| && fi[k] >= i;
      assert fi[k] != i;
      if fi[k] < |ps| - 1 {
        // the object now at fi[k] is the one that was one place further on
        assert RemoveAt(ps, i)[fi[k]] == ps[fi[k] + 1] != ps[fi[k]];
      }
    }
  }

  /**
   The view update of `delete_post` for a post the view shows, on the lists
   alone: the lists stay aligned, and they stay the matching positions.
   */
  lemma ViewAfterDeleteShown(fi: seq<nat>, fp: seq<BlogPost>, ps: seq<BlogPost>,
                             values: seq<PostFields>, q: string, i: nat)
    requires Distinct(ps) && |fp| == |fi| && |values| == |ps| && i < |ps| && i in fi
    ensures var k := IndexOf(fi, i);
            var fi' := ShiftDown(RemoveAt(fi, k), i);
            var fp' := RemoveAt(fp, k);
            && Distinct(RemoveAt(ps, i)) && |fp'| == |fi'|
            && (Aligned(fi, fp, ps) ==> Aligned(fi', fp', RemoveAt(ps, i)))
            && (fi == MatchingPositions(values, q) ==> fi' == MatchingPositions(RemoveAt(values, i), q))
  {
    DistinctAfterRemove(ps, i);
    if Aligned(fi, fp, ps) {
      AlignedAfterDeleteShown(fi, fp, ps, i);
    }
    DeleteKeepsMatching(values, q, i);
  }

  /**
   The same for a post the view hides: the lists, left as they were, stay
   aligned, and stay the matching positions, exactly when no shown index lies
   above the deleted one.
   */
  lemma ViewAfterDeleteHidden(fi: seq<nat>, fp: seq<BlogPost>, ps: seq<BlogPost>,
                              values: seq<PostFields>, q: string, i: nat)
    requires Distinct(ps) && |values| == |ps| && i < |ps| && i !in fi
    ensures Distinct(RemoveAt(ps, i))
    ensures Aligned(fi, fp, ps) ==>
              (Aligned(fi, fp, RemoveAt(ps, i)) <==> forall k :: 0 <= k < |fi| ==> fi[k] < i)
    ensures fi == MatchingPositions(values, q) ==>
              (fi == MatchingPositions(RemoveAt(values, i), q) <==> forall k :: 0 <= k < |fi| ==> fi[k] < i)
  {
    DistinctAfterRemove(ps, i);
    if Aligned(fi, fp, ps) {
      AlignedAfterDeleteHiddenIff(fi, fp, ps, i);
    }
    DeleteKeepsMatching(values, q, i);
  }

  /** The indices fix the view's objects: two lists aligned with the same indices are the same list. */
  lemma AlignedDetermines(fi: seq<nat>, fp: seq<BlogPost>, fp': seq<BlogPost>, ps: seq<BlogPost>)
    requires Aligned(fi, fp, ps) && Aligned(fi, fp', ps)
    ensures fp == fp'
  {
  }

  /** Appending a post and its position keeps the lists aligned. */
  lemma AlignedAfterAppend(fi: seq<nat>, fp: seq<BlogPost>, ps: seq<BlogPost>, p: BlogPost)
    requires Aligned(fi, fp, ps)
    ensures Aligned(fi + [|ps|], fp + [p], ps + [p])
  {
  }

  /** The selected post keeps its place: appending it to the view when it is not there keeps the lists aligned. */
  lemma AlignedAfterShowing(fi: seq<nat>, fp: seq<BlogPost>, ps: seq<BlogPost>, i: nat)
    requires Aligned(fi, fp, ps) && i < |ps| && i !in fi
    ensures Aligned(fi + [i], fp + [ps[i]], ps)
  {
  }

  /**
   The view update after `self.posts.append(post)`: showing the new post when
   `show` keeps the lists aligned, and it yields the matching positions of the
   longer list when the old lists were those of the shorter one.
   */
  lemma ViewAfterAppend(fi: seq<nat>, fp: seq<BlogPost>, ps: seq<BlogPost>, values: seq<PostFields>,
                        q: string, post: BlogPost, fields: PostFields, show: bool)
    requires |values| == |ps| && show == (q == "" || Matches(fields, q))
    ensures Aligned(fi, fp, ps) ==>
              Aligned(if show then fi + [|ps|] else fi, if show then fp + [post] else fp, ps + [post])
    ensures fi == MatchingPositions(values, q) ==>
              (if show then fi + [|ps|] else fi) == MatchingPositions(values + [fields], q)
  {
    EmptyQueryMatches(fields);
    MatchingAfterAppend(values, fields, q);
    if Aligned(fi, fp, ps) && show {
      AlignedAfterAppend(fi, fp, ps, post);
    } else if Aligned(fi, fp, ps) {
      assert forall k :: 0 <= k < |ps| ==> (ps + [post])[k] == ps[k];
    }
  }

  /** Appending a fresh object keeps the objects pairwise different. */
  lemma DistinctAfterAppend(ps: seq<BlogPost>, p: BlogPost)
    requires Distinct(ps) && p !in ps
    ensures Distinct(ps + [p])
  {
  }

  /** The attributes of the list after `del posts[i]` are those of the old list without entry `i`. */
  lemma SnapshotAfterRemove(ps: seq<BlogPost>, i: nat)
    requires i < |ps|
    ensures Snapshot(RemoveAt(ps, i)) == RemoveAt(Snapshot(ps), i)
  {
    SnapshotElements(ps);
    SnapshotElements(RemoveAt(ps, i));
  }

  /** The state of `EnhancedBlogApp` that is not a widget. */
  class BlogStore {
    var posts: seq<BlogPost>
    var filteredPosts: seq<BlogPost>
    var filteredIndices: seq<nat>
    /** The search box text; every change to it re-runs the filter. */
    var searchText: string
    /** `current_post_index`. */
    var currentPostIndex: Option<nat>
    /** The contents of `blog_posts.json`. */
    var dataFile: FileState
    /** The contents of `blog_posts_backup.json`. */
    var backupFile: FileState

    /** What holds in every reachable state: no post object twice, and one index per view entry. */
    ghost predicate Valid()
      reads this`posts, this`filteredPosts, this`filteredIndices
    {
      Distinct(posts) && |filteredPosts| == |filteredIndices|
    }

    /** The current attributes of every post. */
    function Values(): seq<PostFields>
      reads this`posts, posts
    {
      Snapshot(posts)
    }

    /** The posts the list box shows, with their current attributes. */
    function FilteredView(): seq<PostFields>
      reads this`filteredPosts, filteredPosts
    {
      Snapshot(filteredPosts)
    }

    /** Each view entry is the post at its index. */
    ghost predicate ViewAligned()
      reads this`posts, this`filteredPosts, this`filteredIndices
    {
      Aligned(filteredIndices, filteredPosts, posts)
    }

    /** The view shows exactly the posts matching the search text, in list order. */
    ghost predicate ViewCurrent()
      reads this`posts, this`filteredPosts, this`filteredIndices, this`searchText, posts
    {
      ViewAligned() && filteredIndices == MatchingPositions(Values(), searchText)
    }

    /** With an aligned view, row `k` of the list box shows the attributes of the post at index `filteredIndices[k]`. */
    lemma FilteredViewShowsIndexed()
      requires ViewAligned()
      ensures |FilteredView()| == |filteredIndices|
      ensures forall k :: 0 <= k < |filteredIndices| ==> FilteredView()[k] == Values()[filteredIndices[k]]
    {
      SnapshotElements(filteredPosts);
      SnapshotElements(posts);
    }

    /** The application starts with no posts and an empty search box, then loads the posts file. */
    constructor (dataFile: FileState, backupFile: FileState, now: string)
      ensures Valid() && ViewCurrent()
      ensures searchText == "" && currentPostIndex == None
      ensures this.dataFile == dataFile && this.backupFile == backupFile
      ensures if dataFile.Saved? && FromDicts(dataFile.records, now).Ok?
              then Values() == FromDicts(dataFile.records, now).value
              else posts == []
    {
      posts := [];
      filteredPosts := [];
      filteredIndices := [];
      searchText := "";
      currentPostIndex := None;
      this.dataFile := dataFile;
      this.backupFile := backupFile;
      new;
      var _ := LoadPosts(now);
      MatchingEmptyQuery(Values());
    }

    /**
     `load_posts`: replaces the post list by the records of the posts file and
     shows every post. A missing file, an unreadable one or a refused record
     leaves everything as it was.
     */
    method LoadPosts(now: string) returns (outcome: Outcome)
      requires Valid()
      modifies this`posts, this`filteredPosts, this`filteredIndices
      ensures Valid()
      ensures outcome == (if dataFile.Missing? then NoFile
                          else if dataFile.Unreadable? || FromDicts(dataFile.records, now).Err? then LoadFailed
                          else Done)
      ensures outcome != Done ==> unchanged(this)
      ensures outcome == Done ==>
                && Values() == FromDicts(dataFile.records, now).value
                && (forall k :: 0 <= k < |posts| ==> fresh(posts[k]))
                && filteredPosts == posts && filteredIndices == Range(|posts|)
                && ViewAligned()
    {
      outcome := ReadPosts(dataFile, now);
    }

    /**
     The reading shared by `load_posts` and `restore_data`: the records of
     `file` become the post list, all of it shown, unless the file is missing
     or unreadable or one of its records is refused.
     */
    method ReadPosts(file: FileState, now: string) returns (outcome: Outcome)
      requires Valid()
      modifies this`posts, this`filteredPosts, this`filteredIndices
      ensures Valid()
      ensures outcome == (if file.Missing? then NoFile
                          else if file.Unreadable? || FromDicts(file.records, now).Err? then LoadFailed
                          else Done)
      ensures outcome != Done ==> unchanged(this)
      ensures outcome == Done ==>
                && Values() == FromDicts(file.records, now).value
                && (forall k :: 0 <= k < |posts| ==> fresh(posts[k]))
                && filteredPosts == posts && filteredIndices == Range(|posts|)
                && ViewAligned()
    {
      if file.Missing? {
        return NoFile;
      }
      if file.Unreadable? {
        return LoadFailed;
      }
      var loaded := LoadRecords(file.records, now);
      if loaded.None? {
        return LoadFailed;
      }
      ShowAll(loaded.value);
      outcome := Done;
    }

    /** The post list becomes `ps`, and the view shows all of it. */
    method ShowAll(ps: seq<BlogPost>)
      requires Distinct(ps)
      modifies this`posts, this`filteredPosts, this`filteredIndices
      ensures posts == ps && filteredPosts == ps && filteredIndices == Range(|ps|)
      ensures Valid() && ViewAligned()
    {
      posts, filteredPosts, filteredIndices := ps, ps, Range(|ps|);
    }

    /**
     The `enumerate` scan of `filter_posts`: the matching post objects and their
     positions, in list order.
     */
    method Scan(query: string) returns (fp: seq<BlogPost>, fi: seq<nat>)
      ensures fi == MatchingPositions(Values(), query)
      ensures |fp| == |fi| && forall k :: 0 <= k < |fi| ==> fi[k] < |posts| && fp[k] == posts[fi[k]]
    {
      fp := [];
      fi := [];
      var i := 0;
      while i < |posts|
        invariant 0 <= i <= |posts|
        invariant fi == MatchingPositions(Values()[..i], query)
        invariant |fp| == |fi|
        invariant forall k :: 0 <= k < |fi| ==> fi[k] < i && fp[k] == posts[fi[k]]
      {
        assert Values()[..i + 1][..i] == Values()[..i];
        assert Values()[i] == posts[i].Fields() by {
          SnapshotElements(posts);
        }
        if Matches(posts[i].Fields(), query) {
          fp := fp + [posts[i]];
          fi := fi + [i];
        }
        i := i + 1;
      }
      assert Values()[..|posts|] == Values();
    }

    /**
     `on_search_change`: the search box now holds `query`. The empty query shows
     every post; any other shows the matching posts in list order.
     */
    method FilterPosts(query: string)
      requires Valid()
      modifies this`searchText, this`filteredPosts, this`filteredIndices
      ensures Valid() && ViewCurrent() && searchText == query
      ensures query == "" ==> filteredPosts == posts && filteredIndices == Range(|posts|)
      ensures old(ViewCurrent()) && old(searchText) == query ==>
                filteredIndices == old(filteredIndices) && filteredPosts == old(filteredPosts)
    {
      var fp, fi := Filtered(query);
      filteredPosts, filteredIndices, searchText := fp, fi, query;
    }

    /**
     The lists `filter_posts` builds for `query`: for the empty query every
     post, otherwise those the scan finds; either way the matching positions
     and the objects there.
     */
    method Filtered(query: string) returns (fp: seq<BlogPost>, fi: seq<nat>)
      ensures Aligned(fi, fp, posts) && fi == MatchingPositions(Values(), query)
      ensures query == "" ==> fp == posts && fi == Range(|posts|)
      ensures ViewCurrent() && searchText == query ==> fp == filteredPosts && fi == filteredIndices
    {
      if query == "" {
        MatchingEmptyQuery(Values());
        fp := posts;
        fi := Range(|posts|);
      } else {
        fp, fi := Scan(query);
        MatchingPositionsSpec(Values(), query);
      }
      if ViewCurrent() && searchText == query {
        AlignedDetermines(fi, filteredPosts, fp, posts);
      }
    }

    /** `clear_search` (and `refresh_posts`): empties the search box, so every post is shown. */
    method ClearSearch()
      requires Valid()
      modifies this`searchText, this`filteredPosts, this`filteredIndices
      ensures Valid() && ViewCurrent() && searchText == ""
      ensures filteredPosts == posts && filteredIndices == Range(|posts|)
    {
      FilterPosts("");
    }

    /** `save_posts`: writes every post's record, in list order, to the posts file. */
    method SavePosts()
      modifies this`dataFile
      ensures dataFile == Saved(ToDicts(Values()))
      ensures forall now :: FromDicts(dataFile.records, now) == Ok(Values())
    {
      dataFile := Saved(ToDicts(Values()));
      forall now: string ensures FromDicts(dataFile.records, now) == Ok(Values()) {
        FromDictsToDicts(Values(), now);
      }
    }

    /** `backup_data`: writes the same records to the backup file. */
    method BackupData()
      modifies this`backupFile
      ensures backupFile == Saved(ToDicts(Values()))
      ensures forall now :: FromDicts(backupFile.records, now) == Ok(Values())
    {
      backupFile := Saved(ToDicts(Values()));
      forall now: string ensures FromDicts(backupFile.records, now) == Ok(Values()) {
        FromDictsToDicts(Values(), now);
      }
    }

    /**
     `create_post`: `title` is the dialog's answer (`None` when cancelled),
     `editorText` the editor's text. A non-empty title and non-blank content
     append a new post stamped `now`; the view gains it when the search box is
     empty or the post matches; the posts file is rewritten. The selection is
     not changed.
     */
    method CreatePost(title: Option<string>, editorText: string, category: string, tagsText: string, now: string)
      returns (outcome: Outcome)
      requires Valid()
      modifies this`posts, this`filteredPosts, this`filteredIndices, this`dataFile
      ensures Valid()
      ensures outcome == (if title.None? then Cancelled
                          else if title.value == "" then EmptyTitle
                          else if Strip(editorText) == "" then EmptyContent
                          else Done)
      ensures outcome != Done ==> unchanged(this)
      ensures outcome == Done ==>
                var n := |old(posts)|;
                var post := PostFields(title.value, Strip(editorText), now, category, ParseTags(tagsText));
                && |posts| == n + 1 && posts[..n] == old(posts) && fresh(posts[n])
                && Values() == old(Values()) + [post]
                && (if searchText == "" || Matches(post, searchText)
                    then filteredIndices == old(filteredIndices) + [n] && filteredPosts == old(filteredPosts) + [posts[n]]
                    else filteredIndices == old(filteredIndices) && filteredPosts == old(filteredPosts))
                && dataFile == Saved(ToDicts(Values()))
      ensures old(ViewAligned()) ==> ViewAligned()
      ensures old(ViewCurrent()) ==> ViewCurrent()
    {
      if title.None? {
        return Cancelled;
      }
      if title.value == "" {
        return EmptyTitle;
      }
      var content := Strip(editorText);
      if content == "" {
        return EmptyContent;
      }
      var post := new BlogPost(title.value, content, None, category, Some(ParseTags(tagsText)), now);
      AppendPost(post);
      SavePosts();
      outcome := Done;
    }

    /**
     `self.posts.append(post)` and the view update after it: the new post is
     shown when the search box is empty or the post matches.
     */
    method AppendPost(post: BlogPost)
      requires Valid() && post !in posts
      modifies this`posts, this`filteredPosts, this`filteredIndices
      ensures Valid()
      ensures posts == old(posts) + [post] && Values() == old(Values()) + [post.Fields()]
      ensures if searchText == "" || Matches(post.Fields(), searchText)
              then filteredIndices == old(filteredIndices) + [|old(posts)|]
                   && filteredPosts == old(filteredPosts) + [post]
              else filteredIndices == old(filteredIndices) && filteredPosts == old(filteredPosts)
      ensures old(ViewAligned()) ==> ViewAligned()
      ensures old(ViewCurrent()) ==> ViewCurrent()
    {
      ghost var oldValues := Values();
      var fields := post.Fields();
      var show := searchText == "" || Matches(fields, searchText);
      ViewAfterAppend(filteredIndices, filteredPosts, posts, oldValues, searchText, post, fields, show);
      SnapshotAppend(posts, post);
      posts := posts + [post];
      if show {
        filteredPosts := filteredPosts + [post];
        filteredIndices := filteredIndices + [|posts| - 1];
      }
    }

    /**
     `on_post_select`: `row` is the list-box row clicked, if any. The selection
     becomes the index the view lists for that row, and the editor is filled
     from the post there. When that index is stale the handler raises
     IndexError after the selection has already been changed.
     */
    method OnPostSelect(row: Option<nat>) returns (sel: Selection)
      requires Valid()
      requires row.Some? ==> row.value < |filteredPosts|
      modifies this`currentPostIndex
      ensures row.None? ==> sel == NoRow && unchanged(this)
      ensures row.Some? ==>
                var i := filteredIndices[row.value];
                && currentPostIndex == Some(i)
                && sel == (if i < |posts|
                           then Shown(Editor(posts[i].content, posts[i].category, Join(posts[i].tags, ", ")))
                           else SelectFailed)
      ensures row.Some? && ViewAligned() ==>
                sel == Shown(Editor(filteredPosts[row.value].content, filteredPosts[row.value].category,
                                    Join(filteredPosts[row.value].tags, ", ")))
    {
      if row.None? {
        return NoRow;
      }
      var i := filteredIndices[row.value];
      currentPostIndex := Some(i);
      if i >= |posts| {
        return SelectFailed;
      }
      var post := posts[i];
      sel := Shown(Editor(post.content, post.category, Join(post.tags, ", ")));
    }

    /** `clear_editor`: forgets the selection. */
    method ClearEditor()
      modifies this`currentPostIndex
      ensures currentPostIndex == None
    {
      currentPostIndex := None;
    }

    /**
     `edit_post`: with a post selected and non-blank editor text, rewrites the
     selected post's content, timestamp, category and tags in place (the title
     stays). A post already in the view stays there whether or not it still
     matches; a post not in the view is appended to it when the search box is
     empty or the post now matches. The posts file is rewritten.
     */
    method EditPost(editorText: string, category: string, tagsText: string, now: string)
      returns (outcome: Outcome)
      requires Valid()
      modifies this`filteredPosts, this`filteredIndices, this`dataFile
      modifies if currentPostIndex.Some? && currentPostIndex.value < |posts| then {posts[currentPostIndex.value]} else {}
      ensures Valid() && posts == old(posts) && currentPostIndex == old(currentPostIndex)
      ensures outcome == (if currentPostIndex.None? then NoSelection
                          else if Strip(editorText) == "" then EmptyContent
                          else if currentPostIndex.value >= |posts| then IndexError
                          else Done)
      ensures outcome != Done ==> unchanged(this) && Values() == old(Values())
      ensures outcome == Done ==>
                var i := currentPostIndex.value;
                var edited := PostFields(old(Values())[i].title, Strip(editorText), now, category, ParseTags(tagsText));
                && Values() == old(Values())[i := edited]
                && (if i in old(filteredIndices) || !(searchText == "" || Matches(edited, searchText))
                    then filteredIndices == old(filteredIndices) && filteredPosts == old(filteredPosts)
                    else filteredIndices == old(filteredIndices) + [i] && filteredPosts == old(filteredPosts) + [posts[i]])
                && dataFile == Saved(ToDicts(Values()))
      ensures old(ViewAligned()) ==> ViewAligned()
      ensures outcome == Done && old(ViewCurrent()) ==>
                var i := currentPostIndex.value;
                var edited := Values()[i];
                && (i in old(filteredIndices) && Matches(edited, searchText) ==> ViewCurrent())
                && (i in old(filteredIndices) && !Matches(edited, searchText) ==> !ViewCurrent())
                && (i !in old(filteredIndices) && !Matches(edited, searchText) ==> ViewCurrent())
                && (i !in old(filteredIndices) && Matches(edited, searchText) ==>
                      (ViewCurrent() <==> forall k :: 0 <= k < |old(filteredIndices)| ==> old(filteredIndices)[k] < i))
    {
      if currentPostIndex.None? {
        return NoSelection;
      }
      var content := Strip(editorText);
      if content == "" {
        return EmptyContent;
      }
      var i := currentPostIndex.value;
      if i >= |posts| {
        return IndexError;
      }
      EditAt(i, content, now, category, ParseTags(tagsText));
      outcome := Done;
    }

    /** What `edit_post` does once it has found post `i` and its new content. */
    method EditAt(i: nat, content: string, timestamp: string, category: string, tags: seq<string>)
      requires Valid() && i < |posts|
      modifies this`filteredPosts, this`filteredIndices, this`dataFile, posts[i]
      ensures Valid()
      ensures var edited := PostFields(old(Values())[i].title, content, timestamp, category, tags);
              && Values() == old(Values())[i := edited]
              && (if i in old(filteredIndices) || !(searchText == "" || Matches(edited, searchText))
                  then filteredIndices == old(filteredIndices) && filteredPosts == old(filteredPosts)
                  else filteredIndices == old(filteredIndices) + [i] && filteredPosts == old(filteredPosts) + [posts[i]])
              && dataFile == Saved(ToDicts(Values()))
      ensures old(ViewAligned()) ==> ViewAligned()
      ensures old(ViewCurrent()) ==>
                var edited := Values()[i];
                && (i in old(filteredIndices) && Matches(edited, searchText) ==> ViewCurrent())
                && (i in old(filteredIndices) && !Matches(edited, searchText) ==> !ViewCurrent())
                && (i !in old(filteredIndices) && !Matches(edited, searchText) ==> ViewCurrent())
                && (i !in old(filteredIndices) && Matches(edited, searchText) ==>
                      (ViewCurrent() <==> forall k :: 0 <= k < |old(filteredIndices)| ==> old(filteredIndices)[k] < i))
    {
      ghost var before := Values();
      UpdatePost(i, content, timestamp, category, tags);
      ShowEdited(i, before);
      ghost var after := Values();
      SavePosts();
      assert Values() == after;
    }

    /**
     The view update of `edit_post` after post `i` has changed from `before[i]`:
     the post is appended to the view when it is not there and the search box
     is empty or the post now matches.
     */
    method ShowEdited(i: nat, ghost before: seq<PostFields>)
      requires Valid() && i < |posts| && |before| == |posts| && Values() == before[i := Values()[i]]
      modifies this`filteredPosts, this`filteredIndices
      ensures Valid()
      ensures if i in old(filteredIndices) || !(searchText == "" || Matches(Values()[i], searchText))
              then filteredIndices == old(filteredIndices) && filteredPosts == old(filteredPosts)
              else filteredIndices == old(filteredIndices) + [i] && filteredPosts == old(filteredPosts) + [posts[i]]
      ensures old(ViewAligned()) ==> ViewAligned()
      ensures old(ViewAligned()) && old(filteredIndices) == MatchingPositions(before, searchText) ==>
                var m := old(filteredIndices);
                var edited := Values()[i];
                && (i in m && Matches(edited, searchText) ==> ViewCurrent())
                && (i in m && !Matches(edited, searchText) ==> !ViewCurrent())
                && (i !in m && !Matches(edited, searchText) ==> ViewCurrent())
                && (i !in m && Matches(edited, searchText) ==> (ViewCurrent() <==> forall k :: 0 <= k < |m| ==> m[k] < i))
    {
      ghost var values := Values();
      var edited := posts[i].Fields();
      assert edited == values[i] by {
        SnapshotElements(posts);
      }
      EmptyQueryMatches(edited);
      if i !in filteredIndices && (searchText == "" || Matches(edited, searchText)) {
        if old(ViewAligned()) {
          AlignedAfterShowing(filteredIndices, filteredPosts, posts, i);
        }
        filteredPosts := filteredPosts + [posts[i]];
        filteredIndices := filteredIndices + [i];
      }
      assert Values() == values;
      EditKeepsMatching(before, searchText, i, edited);
    }

    /** The attribute assignments of `edit_post` on post `i`. */
    method UpdatePost(i: nat, content: string, timestamp: string, category: string, tags: seq<string>)
      requires Valid() && i < |posts|
      modifies posts[i]
      ensures Values() == old(Values())[i := PostFields(old(Values())[i].title, content, timestamp, category, tags)]
    {
      ghost var oldValues := Values();
      var post := posts[i];
      assert forall k :: 0 <= k < |posts| ==> oldValues[k] == posts[k].Fields() by {
        SnapshotElements(posts);
      }
      post.Update(content, timestamp, category, tags);
      assert Values() == oldValues[i := post.Fields()] by {
        SnapshotElements(posts);
        assert forall k :: 0 <= k < |posts| && k != i ==> posts[k] != post;
      }
    }

    /**
     `delete_post`: with a post selected and the deletion confirmed, removes it
     from the list. When the view shows it, its entry goes too and the larger
     indices move down by one; when the view does not show it, the view lists
     are left exactly as they were. The posts file is rewritten and the
     selection cleared.
     */
    method DeletePost(confirmed: bool) returns (outcome: Outcome)
      requires Valid()
      modifies this`posts, this`filteredPosts, this`filteredIndices, this`dataFile, this`currentPostIndex
      ensures Valid()
      ensures outcome == (if old(currentPostIndex).None? then NoSelection
                          else if old(currentPostIndex).value >= |old(posts)| then IndexError
                          else if !confirmed then Cancelled
                          else Done)
      ensures outcome != Done ==> unchanged(this)
      ensures outcome == Done ==>
                var i := old(currentPostIndex).value;
                var fi := old(filteredIndices);
                && posts == RemoveAt(old(posts), i)
                && Values() == RemoveAt(old(Values()), i)
                && (if i in fi
                    then filteredIndices == ShiftDown(RemoveAt(fi, IndexOf(fi, i)), i)
                         && filteredPosts == RemoveAt(old(filteredPosts), IndexOf(fi, i))
                    else filteredIndices == fi && filteredPosts == old(filteredPosts))
                && dataFile == Saved(ToDicts(Values()))
                && currentPostIndex == None
      ensures outcome == Done && old(ViewAligned()) ==>
                var i := old(currentPostIndex).value;
                && (i in old(filteredIndices) ==> ViewAligned())
                && (i !in old(filteredIndices) ==>
                      (ViewAligned() <==> forall k :: 0 <= k < |filteredIndices| ==> filteredIndices[k] < i))
      ensures outcome == Done && old(ViewCurrent()) ==>
                var i := old(currentPostIndex).value;
                && (i in old(filteredIndices) ==> ViewCurrent())
                && (i !in old(filteredIndices) ==>
                      (ViewCurrent() <==> forall k :: 0 <= k < |filteredIndices| ==> filteredIndices[k] < i))
    {
      if currentPostIndex.None? {
        return NoSelection;
      }
      var i := currentPostIndex.value;
      if i >= |posts| {
        return IndexError;
      }
      if !confirmed {
        return Cancelled;
      }
      currentPostIndex := None;
      RemovePost(i);
      SavePosts();
      outcome := Done;
    }

    /** `del self.posts[i]` and the view update after it. */
    method RemovePost(i: nat)
      requires Valid() && i < |posts|
      modifies this`posts, this`filteredPosts, this`filteredIndices
      ensures Valid()
      ensures posts == RemoveAt(old(posts), i) && Values() == RemoveAt(old(Values()), i)
      ensures var fi := old(filteredIndices);
              if i in fi
              then filteredIndices == ShiftDown(RemoveAt(fi, IndexOf(fi, i)), i)
                   && filteredPosts == RemoveAt(old(filteredPosts), IndexOf(fi, i))
              else filteredIndices == fi && filteredPosts == old(filteredPosts)
      ensures old(ViewAligned()) ==>
                && (i in old(filteredIndices) ==> ViewAligned())
                && (i !in old(filteredIndices) ==>
                      (ViewAligned() <==> forall k :: 0 <= k < |filteredIndices| ==> filteredIndices[k] < i))
      ensures old(ViewCurrent()) ==>
                && (i in old(filteredIndices) ==> ViewCurrent())
                && (i !in old(filteredIndices) ==>
                      (ViewCurrent() <==> forall k :: 0 <= k < |filteredIndices| ==> filteredIndices[k] < i))
    {
      if i in filteredIndices {
        DeleteShown(i);
      } else {
        DeleteHidden(i);
      }
    }

    /** `del self.posts[i]` for a post the view shows: its entry goes and the larger indices move down. */
    method DeleteShown(i: nat)
      requires Valid() && i < |posts| && i in filteredIndices
      modifies this`posts, this`filteredPosts, this`filteredIndices
      ensures Valid()
      ensures posts == RemoveAt(old(posts), i) && Values() == RemoveAt(old(Values()), i)
      ensures var k := IndexOf(old(filteredIndices), i);
              && filteredIndices == ShiftDown(RemoveAt(old(filteredIndices), k), i)
              && filteredPosts == RemoveAt(old(filteredPosts), k)
      ensures old(ViewAligned()) ==> ViewAligned()
      ensures old(ViewCurrent()) ==> ViewCurrent()
    {
      ViewAfterDeleteShown(filteredIndices, filteredPosts, posts, Values(), searchText, i);
      SnapshotAfterRemove(posts, i);
      var k := IndexOf(filteredIndices, i);
      posts, filteredPosts, filteredIndices :=
        RemoveAt(posts, i), RemoveAt(filteredPosts, k), ShiftDown(RemoveAt(filteredIndices, k), i);
    }

    /**
     `del self.posts[i]` for a post the view hides: the view lists stay as they
     were, which keeps them right exactly when no shown index lies above `i`.
     */
    method DeleteHidden(i: nat)
      requires Valid() && i < |posts| && i !in filteredIndices
      modifies this`posts
      ensures Valid()
      ensures posts == RemoveAt(old(posts), i) && Values() == RemoveAt(old(Values()), i)
      ensures old(ViewAligned()) ==>
                (ViewAligned() <==> forall k :: 0 <= k < |filteredIndices| ==> filteredIndices[k] < i)
      ensures old(ViewCurrent()) ==>
                (ViewCurrent() <==> forall k :: 0 <= k < |filteredIndices| ==> filteredIndices[k] < i)
    {
      ViewAfterDeleteHidden(filteredIndices, filteredPosts, posts, Values(), searchText, i);
      SnapshotAfterRemove(posts, i);
      posts := RemoveAt(posts, i);
    }

    /**
     `restore_data`: when the backup file exists and the restore is confirmed,
     replaces the post list by the backup's records, rewrites the posts file,
     shows every post whatever the search box holds, and clears the selection.
     A missing or unreadable backup, a refused record or a declined
     confirmation leaves everything as it was.
     */
    method RestoreData(confirmed: bool, now: string) returns (outcome: Outcome)
      requires Valid()
      modifies this`posts, this`filteredPosts, this`filteredIndices, this`dataFile, this`currentPostIndex
      ensures Valid()
      ensures outcome == (if backupFile.Missing? then NoFile
                          else if !confirmed then Cancelled
                          else if backupFile.Unreadable? || FromDicts(backupFile.records, now).Err? then LoadFailed
                          else Done)
      ensures outcome != Done ==> unchanged(this)
      ensures outcome == Done ==>
                && Values() == FromDicts(backupFile.records, now).value
                && (forall k :: 0 <= k < |posts| ==> fresh(posts[k]))
                && dataFile == Saved(ToDicts(Values()))
                && filteredPosts == posts && filteredIndices == Range(|posts|)
                && ViewAligned()
                && currentPostIndex == None
      ensures outcome == Done ==> (ViewCurrent() <==> MatchingPositions(Values(), searchText) == Range(|posts|))
    {
      if backupFile.Missing? {
        return NoFile;
      }
      if !confirmed {
        return Cancelled;
      }
      outcome := ReadPosts(backupFile, now);
      if outcome == Done {
        SavePosts();
        ClearEditor();
      }
    }
  }
}
