# Blog application: posts, search view and records

This project models the data side of a small desktop blog editor
(`blog_app.py`). The editor keeps an ordered list of posts. Each post is a
`BlogPost` object with a title, content, timestamp, category and tags. A
search box filters the list into a view: `filtered_posts` holds the post
objects the list box shows, and `filtered_indices` holds their positions in
`posts`. Posts are created; they are edited in place and deleted through
the selected list-box row. The whole list is written to a JSON posts file after
every change, and it can be read back from that file or from a backup file.

The model has four modules, one per file:

- `Text` (`text.dfy`): the Python string operations the application relies
  on. These are `lower()`, the `in` substring test, `strip()`,
  `split(',')` and `", ".join(...)`, plus the tag-parsing comprehension
  `[tag.strip() for tag in text.split(',') if tag.strip()]`.
- `Posts` (`post.dfy`): the five attributes of a post as a value
  (`PostFields`) and the `BlogPost` class whose attributes `edit_post`
  assigns. It also holds `matches_search`, the JSON record form
  (`to_dict`, `from_dict`) and the comprehension that turns a loaded record
  list into post objects.
- `View` (`view.dfy`): pure functions on index lists. `MatchingPositions`
  gives the positions a query should show. `RemoveAt`, `IndexOf` and
  `ShiftDown` model `del`, `list.index` and the index shift of
  `delete_post`. The lemmas say which list edits keep a correct view
  correct, and give concrete counterexamples for those that do not.
- `Store` (`store.dfy`): the class `BlogStore`, which holds the state of
  `EnhancedBlogApp` that is not a widget: `posts`, `filteredPosts`,
  `filteredIndices`, the search text, `currentPostIndex` and the contents
  of the two files. Each handler is a method.

Widget input becomes parameters: the search text, the editor text, the
category and tags entries, the clicked row, the answer to a dialog, and the
clock reading `now`. A file is a `FileState`:
- missing;
- unreadable, which covers a file that is not valid JSON;
- saved with a list of records.

`ViewAligned()` says that view entry `k` is the object at position
`filteredIndices[k]`, and that no position appears twice. `ViewCurrent()` adds that `filteredIndices` is
exactly the ascending list of matching positions. The model states, per
operation, which of the two survives:

- `filter_posts` establishes both. `create_post` and the shown-post case
  of `delete_post` keep both.
- `load_posts` establishes `ViewAligned()` and shows every post. At
  start-up the search box is empty, so the view is then also current.
- `restore_data` re-shows every post whatever the search box holds. The
  view is then current exactly when every post matches the search text.
- `delete_post` of a post the view hides leaves the index list as it was.
  That list stays right exactly when no shown index lies above the deleted
  position.
- `edit_post` keeps a shown post in the view. That is right exactly when
  the post still matches.
- `edit_post` appends a hidden post that now matches at the end of the
  view. That is right exactly when every shown index lies below it.

Some of the code's behaviour is easy to misread. The model follows the code
as written:

- `from_dict` requires a `timestamp` key as well as `title` and `content`.
- `create_post` tests the title for emptiness without stripping it.
- A failed load leaves the post list as it was, rather than empty.
- `edit_post` does not re-run the filter. It keeps or appends the edited
  post as described above.
- `delete_post` renumbers the view only when the deleted post is shown.
- `edit_post` checks the content before it looks up the selected post.

## Model

| member | source | states |
|---|---|---|
| Text.LowerChar | blog_app.py:43-47 | the lower-case form of one character is never an ASCII capital, and an ASCII lower-case letter is kept |
| Text.Lower | blog_app.py:43-47 | `s.lower()` applied code point by code point keeps the length; the value of each character is given by LowerElements |
| Text.Contains | blog_app.py:44-47 | the test `needle in hay`: the empty needle is always found, and a found needle is no longer than the text; ContainsIsSubstring proves it is exactly the substring test |
| Text.IsSpace | blog_app.py:507 | the code points Python's `str.isspace()` accepts, which `strip()` removes; the properties are those of TrimStartIsSuffix and TrimEndIsPrefix |
| Text.TrimStart | blog_app.py:507 | `lstrip()`, defined by dropping leading whitespace; TrimStartIsSuffix proves what it returns |
| Text.TrimEnd | blog_app.py:507 | `rstrip()`, defined by dropping trailing whitespace; TrimEndIsPrefix proves what it returns |
| Text.Strip | blog_app.py:507 | `strip()` as `rstrip()` after `lstrip()`; StripIsTrimmedInfix, StripOfStripped and StripEmptyIffAllSpace prove what it returns |
| Text.LowerElements | blog_app.py:43-47 | each character of `s.lower()` is the lower-case form of the character at the same place, so lower-casing keeps the length |
| Text.LowerIdempotent | blog_app.py:43-47 | lower-casing an already lower-cased string changes nothing |
| Text.ContainsIsSubstring | blog_app.py:44-47 | the left-to-right scan for `q in s` holds exactly when `q` occurs in `s` at some offset |
| Text.EmptyIsEverywhere | blog_app.py:44 | the empty string is in every string |
| Text.TrimStartIsSuffix | blog_app.py:507 | `lstrip()` gives the suffix left after the leading whitespace, and it does not start with whitespace |
| Text.TrimEndIsPrefix | blog_app.py:507 | `rstrip()` gives the prefix left before the trailing whitespace, and it does not end with whitespace |
| Text.StripIsTrimmedInfix | blog_app.py:507 | `strip()` gives an infix of the text with only whitespace around it, and no whitespace at either end |
| Text.StripOfStripped | blog_app.py:512 | stripping text with no whitespace at its ends changes nothing |
| Text.StripEmptyIffAllSpace | blog_app.py:507-508 | stripped text is empty exactly when every character is whitespace, which is when `create_post` and `edit_post` refuse the content |
| Text.Split | blog_app.py:512 | `split(',')` gives at least one piece and at most one more piece than the text has characters |
| Text.Join | blog_app.py:557 | `glue.join(pieces)` starts with the first piece; JoinSplit and ParseTagsOfJoined prove how it relates to splitting and tag parsing |
| Text.SplitPiecesHaveNoSeparator | blog_app.py:512 | no piece of a split contains the separator |
| Text.JoinSplit | blog_app.py:512 | joining the pieces of a split with the separator gives the text back |
| Text.SplitWithoutSeparator | blog_app.py:512 | text without the separator splits into itself alone |
| Text.SplitAround | blog_app.py:512 | splitting `a + sep + b` gives the pieces of `a` followed by the pieces of `b` |
| Text.CleanPieces | blog_app.py:512 | the `tag.strip() ... if tag.strip()` part of the comprehension never gives more tags than there are pieces |
| Text.ParseTags | blog_app.py:512 | the tag comprehension of `create_post` and `edit_post` gives at most one tag per comma-separated piece; ParsedTagsAreClean, ParseTagsAround and ParseTagsOfJoined prove what the tags are |
| Text.CleanPiecesAppend | blog_app.py:512 | stripping pieces and dropping empty ones works piece by piece and keeps order |
| Text.CleanPiecesAreClean | blog_app.py:512 | comma-free pieces give tags that are non-empty, comma-free and stripped |
| Text.ParsedTagsAreClean | blog_app.py:512 | every parsed tag is non-empty, has no comma and has no whitespace at either end |
| Text.ParseTagsAround | blog_app.py:575 | parsing keeps order and duplicates: the tags of `a,b` are the tags of `a` followed by the tags of `b` |
| Text.ParseTagsOfEmpty | blog_app.py:512 | an empty tags entry gives no tags |
| Text.SplitOfBlanks | blog_app.py:512 | text made of commas and whitespace splits into pieces that are all whitespace |
| Text.CleanPiecesOfBlanks | blog_app.py:512 | pieces that are all whitespace are all dropped |
| Text.ParseTagsOfBlanks | blog_app.py:512 | a tags entry made of commas and whitespace gives no tags |
| Text.ParseTagsSkipsLeadingSpace | blog_app.py:512 | a leading space in the tags entry makes no difference |
| Text.ParseTagsOfCleanTag | blog_app.py:512 | a single clean tag parses to itself |
| Text.ParseTagsOfJoined | blog_app.py:557 | the tags entry that `on_post_select` fills in (`", ".join(tags)`) parses back to the same tags when every tag is clean |
| Text.ParseTagsIdempotent | blog_app.py:575 | saving an edit without touching the tags entry keeps the tags the parser produced |
| Posts.AnyTagContains | blog_app.py:47 | `any(q in tag.lower() for tag in tags)`: under the empty query it holds exactly when there is a tag |
| Posts.Matches | blog_app.py:41-47 | `matches_search`, as the disjunction over the four lower-cased fields; MatchesIff, EmptyQueryMatches and MatchesIgnoresQueryCase prove what it means |
| Posts.AnyTagContainsIff | blog_app.py:47 | the `any(...)` over tags holds exactly when the query occurs in some lower-cased tag |
| Posts.MatchesIff | blog_app.py:41-47 | a post matches exactly when the lower-cased query occurs in the lower-cased title, content or category, or in some lower-cased tag |
| Posts.EmptyQueryMatches | blog_app.py:41-47 | the empty query matches every post |
| Posts.MatchesIgnoresQueryCase | blog_app.py:43 | lower-casing the query first does not change the result |
| Posts.ToDict | blog_app.py:22-29 | `to_dict` gives a record with exactly the five attribute keys, none of them `null` |
| Posts.FromDict | blog_app.py:31-39 | an accepted record has the three required keys, the post's title and content are the record's strings, and a `null` timestamp becomes the clock reading; FromDictFields gives the timestamp, category and tags of every accepted record |
| Posts.FromDictToDict | blog_app.py:22-39 | reading back a post's record gives all five attributes again |
| Posts.FromDictNeedsKeys | blog_app.py:33-36 | a record without `title`, `content` or `timestamp` is refused with the first key that is missing, in the order Python evaluates them |
| Posts.FromDictFields | blog_app.py:15-38 | for every accepted record: the timestamp is the record's string, or the clock reading for `null`; the category is the record's, or `""` when missing; the tags are the record's list, or `[]` when missing or `null` |
| Posts.FromDictDefaults | blog_app.py:37-38 | a record with only the three required keys gets category `""` and no tags |
| Posts.FromDictIgnoresOtherKeys | blog_app.py:31-39 | keys other than the five attributes make no difference to reading a record |
| Posts.FromDicts | blog_app.py:370 | a loaded list has one post per record |
| Posts.ToDicts | blog_app.py:391 | a saved list has one record per post |
| Posts.FromDictsToDicts | blog_app.py:370 | reading back a saved list gives the same posts in the same order |
| Posts.FromDictsEach | blog_app.py:370 | the list loads exactly when every record loads, and post `k` comes from record `k` |
| Posts.BlogPost.constructor | blog_app.py:12-20 | the new object has the given attributes; a missing timestamp becomes the clock reading and missing tags become `[]` |
| Posts.BlogPost.Update | blog_app.py:571-575 | content, timestamp, category and tags take the new values and the title is kept |
| Posts.Snapshot | blog_app.py:391 | the attributes of every post in list order, one entry per post |
| Posts.SnapshotElements | blog_app.py:391 | entry `k` of the attribute list is post `k`'s current attributes |
| Posts.SnapshotAppend | blog_app.py:516 | appending an object appends its attributes |
| Posts.LoadRecords | blog_app.py:369-370 | the comprehension succeeds exactly when every record is accepted; it then gives one fresh, distinct object per record, with that record's attributes |
| View.Range | blog_app.py:325 | `list(range(n))` has `n` entries and entry `k` is `k` |
| View.MatchingPositions | blog_app.py:330-335 | the positions the `enumerate` scan appends for a query, in scan order; MatchingPositionsSpec proves they are exactly the matching positions, strictly ascending |
| View.InMatching | blog_app.py:333-335 | a position is in the list exactly when it is a position of a matching post |
| View.MatchingPositionsSpec | blog_app.py:330-335 | the positions the scan collects are strictly ascending, lie inside the list, and are exactly the positions of the matching posts |
| View.AscendingUnique | blog_app.py:330-335 | two strictly ascending index lists with the same members are equal |
| View.IsMatchingPositions | blog_app.py:330-335 | any strictly ascending list of exactly the matching positions is the list the scan builds |
| View.MatchingEmptyQuery | blog_app.py:322-325 | under the empty query the matching positions are `range(len(posts))` |
| View.MatchingAfterAppend | blog_app.py:516-521 | appending a post adds its position at the end exactly when it matches; earlier positions stay |
| View.RemoveAt | blog_app.py:609 | `del s[k]` shortens the list by one and moves every later entry one place forward |
| View.IndexOf | blog_app.py:614 | `list.index(x)` gives the first position holding `x` |
| View.ShiftDown | blog_app.py:619 | the comprehension that renumbers the shown positions after a delete; what the shift means is proved by ShiftDownMembers (ascending order kept, each index above `i` moved one place down) and DeleteShownKeepsMatching (the result is exactly the matching positions of the shorter list) |
| View.DistinctAfterRemove | blog_app.py:609 | deleting an entry keeps the entries pairwise different, and the deleted one is gone |
| View.DistinctAfterShift | blog_app.py:619 | the shift keeps different indices different when none of them is the deleted one |
| View.ShiftDownMembers | blog_app.py:619 | the shift keeps an ascending list ascending and maps each index above `i` one place down |
| View.RemoveMember | blog_app.py:614-616 | deleting the entry `index(x)` from an ascending list keeps it ascending and removes only `x` |
| View.MatchingAfterRemove | blog_app.py:609 | after deleting post `i`, position `j` matches exactly when the old list matched at `j` (below `i`) or `j + 1` (from `i` on) |
| View.ShiftAfterRemoveMembers | blog_app.py:614-619 | dropping `i` and shifting gives an ascending list of exactly the old positions renumbered for the shorter list |
| View.DeleteShownKeepsMatching | blog_app.py:609-619 | deleting a shown post and applying the code's removal and shift gives exactly the matching positions of the shorter list |
| View.DeleteHiddenNeedsShift | blog_app.py:620-621 | for a hidden post, the shift that the code skips would have given the right list |
| View.DeleteHiddenKeepsMatchingIff | blog_app.py:620-621 | the unshifted list is still right after deleting a hidden post exactly when no shown index lies above the deleted one |
| View.MatchingAfterUpdate | blog_app.py:571-575 | after post `i` changes, the matching positions are the old ones except `i`, which matches exactly when the new post does |
| View.EditShownStillMatching | blog_app.py:580-582 | a shown post that still matches after the edit leaves the right list unchanged |
| View.EditShownNoLongerMatching | blog_app.py:580-582 | a shown post that stops matching keeps an index that is no longer right |
| View.EditHiddenStillHidden | blog_app.py:583-585 | a hidden post that still does not match leaves the right list unchanged |
| View.EditHiddenNowMatchingIff | blog_app.py:585-587 | appending a newly matching hidden post gives the right members, and the right list exactly when every shown index lies below it |
| View.DeleteKeepsMatching | blog_app.py:609-621 | the effect of both branches of `delete_post` on a correct index list |
| View.EditKeepsMatching | blog_app.py:579-588 | the effect of all four cases of `edit_post` on a correct index list |
| View.NotesMatching | blog_app.py:41-47 | the query "b" matches the note "b" and not the note "a" |
| View.TitledMatching | blog_app.py:41-47 | the query "a" matches the post with content "a" and not the one with content "x" |
| View.StaleIndexAfterHiddenDelete | blog_app.py:620-621 | with posts "a" and "b" under the query "b", the view holds `[1]`; after deleting the hidden post 0 the right list is `[0]` |
| View.ShownPostEditedAway | blog_app.py:580-582 | a post shown for "a" and edited to content "x" keeps index 0, while the right list is empty |
| View.HiddenPostEditedOutOfOrder | blog_app.py:585-587 | for the query "a" the view holds `[1]` before post 0 is edited to match; appending 0 gives `[1, 0]`, which is not the right list `[0, 1]` |
| Store.AlignedAfterDeleteShown | blog_app.py:609-619 | deleting a shown post with the removal and shift keeps each view entry the object at its index |
| Store.AlignedAfterDeleteHiddenIff | blog_app.py:609-621 | after deleting a hidden post the view entries stay the objects at their indices exactly when every shown index lies below the deleted one |
| Store.ViewAfterDeleteShown | blog_app.py:609-619 | the shown-post delete keeps the view aligned and keeps it the matching positions |
| Store.ViewAfterDeleteHidden | blog_app.py:609-621 | the hidden-post delete keeps the view aligned, and current, exactly when no shown index lies above the deleted one |
| Store.AlignedDetermines | blog_app.py:330-335 | the indices fix the view's objects: two view lists aligned with the same indices are equal |
| Store.AlignedAfterAppend | blog_app.py:519-521 | appending the new post and its position keeps the view aligned |
| Store.AlignedAfterShowing | blog_app.py:586-587 | appending an edited post with its own index keeps the view aligned |
| Store.ViewAfterAppend | blog_app.py:516-521 | the view update of `create_post` keeps the view aligned and keeps it the matching positions |
| Store.DistinctAfterAppend | blog_app.py:516 | appending a new object keeps the post objects pairwise different |
| Store.SnapshotAfterRemove | blog_app.py:609 | the attributes after `del posts[i]` are the old attributes without entry `i` |
| Store.BlogStore.FilteredViewShowsIndexed | blog_app.py:350-351 | with an aligned view, the list box row `k` shows the attributes of the post at index `filteredIndices[k]` |
| Store.BlogStore.constructor | blog_app.py:56-63 | the application sets its file paths and starts with an empty search box and no selection, then loads the posts file (the `load_posts()` call at line 198 of blog_app.py); the view is current |
| Store.BlogStore.LoadPosts | blog_app.py:364-386 | a missing file, an unreadable one or a refused record changes nothing; otherwise the posts are the file's records and the view shows all of them |
| Store.BlogStore.ReadPosts | blog_app.py:367-374 | the same for any file: the records become the post list, every post is shown, or nothing changes |
| Store.BlogStore.ShowAll | blog_app.py:373-374 | the view becomes the whole list with indices `range(len(posts))` |
| Store.BlogStore.Scan | blog_app.py:330-335 | the `enumerate` loop collects the matching positions and the objects there |
| Store.BlogStore.FilterPosts | blog_app.py:315-337 | the view becomes current for the new search text; the empty query shows every post with `range(len(posts))`; re-filtering with the same text leaves both lists as they were |
| Store.BlogStore.Filtered | blog_app.py:322-335 | the lists built for a query are aligned and are the matching positions; for the search text the view already shows, they are the current lists |
| Store.BlogStore.ClearSearch | blog_app.py:339-342 | after clearing the search the view shows every post with `range(len(posts))` |
| Store.BlogStore.SavePosts | blog_app.py:388-397 | the posts file holds the records of all posts in list order, and reading it back gives the same posts |
| Store.BlogStore.BackupData | blog_app.py:399-409 | the backup file holds the same records, and reading it back gives the same posts |
| Store.BlogStore.CreatePost | blog_app.py:503-540 | a cancelled dialog, an empty title or blank content changes nothing; otherwise one fresh post with the stripped content, the parsed tags and `now` is appended after the unchanged earlier posts; the view gains it exactly when the search box is empty or it matches; the file is rewritten; a correct view stays correct |
| Store.BlogStore.AppendPost | blog_app.py:516-521 | the list gains the post at the end; the view gains it exactly when the search is empty or it matches; a correct view stays correct |
| Store.BlogStore.OnPostSelect | blog_app.py:542-557 | the selection becomes the index the view lists for the row, and the editor gets that post's content, category and joined tags; a stale index fails after the selection has changed; with an aligned view the editor shows the clicked post |
| Store.BlogStore.ClearEditor | blog_app.py:647-654 | the selection is cleared |
| Store.BlogStore.EditPost | blog_app.py:564-598 | no selection, blank content or a stale index changes nothing; otherwise only the selected post changes: new content, category, tags and timestamp, same title; the list and every other post stay; the view is kept or gains the post; for each of the four cases, whether the view stays current |
| Store.BlogStore.EditAt | blog_app.py:570-591 | the edit of post `i` with its view update and file rewrite, with the same four-case statement about the view |
| Store.BlogStore.ShowEdited | blog_app.py:579-588 | the edited post is appended to the view exactly when it was not shown and the search is empty or it now matches |
| Store.BlogStore.UpdatePost | blog_app.py:570-575 | post `i`'s attributes change as `edit_post` assigns them and every other post keeps its attributes |
| Store.BlogStore.DeletePost | blog_app.py:600-638 | no selection, a stale index (raised before the confirmation) or a declined confirmation changes nothing; otherwise post `i` is removed; a shown post's entry is removed and the larger indices shift down, a hidden one leaves the view as it was; the file is rewritten and the selection cleared; which view invariants survive |
| Store.BlogStore.RemovePost | blog_app.py:609-621 | the removal of post `i` with its view update, and which view invariants survive |
| Store.BlogStore.DeleteShown | blog_app.py:609-619 | deleting a shown post keeps the view aligned and current |
| Store.BlogStore.DeleteHidden | blog_app.py:609-621 | deleting a hidden post keeps the view aligned, and current, exactly when no shown index lies above it |
| Store.BlogStore.RestoreData | blog_app.py:411-433 | a missing backup, a declined confirmation, an unreadable backup or a refused record changes nothing; otherwise the posts are the backup's records, the posts file is rewritten, every post is shown and the selection is cleared; the view is then current exactly when every post matches the search text |

## Left out

- The tkinter widgets, layout, menus and toolbars. Message boxes, status-bar texts and the list-box refresh are left out too; an `Outcome` value stands for each message the handlers show.
- JSON parsing and file I/O: a file is `Missing`, `Unreadable` (which covers any read or parse error) or `Saved` records. Write failures and the messages for them are not modelled; saving always succeeds.
- `datetime.now()`: the clock reading is the parameter `now`.
- HTML export, preview, `webbrowser.open`, temporary files, the PDF placeholder, `format_text_for_html`, the formatting shortcuts and `update_word_count`. They are string templating, foreign calls and widget state, with no effect on the post list.
- Clearing the editor widgets after create, delete and restore (`clear_editor`): only the selection (`currentPostIndex`) is state here. `save_current_post` only calls `edit_post` when a post is selected, so `EditPost` covers it.
- Text.Lower: only the ASCII and Latin-1 upper-case letters are lower-cased. Python's `str.lower()` also maps the rest of Unicode and a few characters to two characters, so matching differs for such text.
- Posts.FromDict: a record field whose JSON kind does not fit the attribute is refused with `BadValue`, for example a list title, a string `tags` or a `null` category. Python would build the post anyway and fail later, or store the value as it is.
- Posts.Value: JSON numbers, booleans and nested objects have no `Value`. A file holding one, for example a number `timestamp`, can only be modelled as `Unreadable`, so loading it gives `LoadFailed`; Python would load that file, show the post and save it back.
- Store.BlogStore.RestoreData: the posts file is written after the view is reset, whereas the code writes it before. The two steps touch different state, so the final state is the same.
- Store.BlogStore.OnPostSelect: the clicked row must be a row of the list box, that is, below `len(filtered_posts)`. An empty list box has no row to click.
- Exceptions that Tk reports and swallows (the `IndexError` paths) are modelled as outcomes that leave the state as the handler had changed it up to the failing line.
