/**
 One blog post: the `BlogPost` object with its five attributes, the search
 test over them, and the record (JSON object) form used on disk.
 */
module Posts {
  import opened Text

  datatype Option<T> = None | Some(value: T)

  /** The five attributes of a post at one moment. */
  datatype PostFields = PostFields(
    title: string,
    content: string,
    timestamp: string,
    category: string,
    tags: seq<string>)

  /** The JSON values a record field can hold: a string, a list of strings, or `null`. */
  datatype Value = Str(text: string) | StrList(items: seq<string>) | Null

  /** A JSON object as read from or written to the posts file. */
  type Record = map<string, Value>

  /** Why a record does not make a post. */
  datatype RecordError = MissingKey(key: string) | BadValue(key: string)

  datatype Result<T> = Ok(value: T) | Err(error: RecordError)

  /** `any(q in tag.lower() for tag in tags)` for an already lower-cased `q`. */
  function AnyTagContains(tags: seq<string>, q: string): (r: bool)
    ensures q == [] ==> (r <==> tags != [])
    decreases |tags|
  {
    tags != [] && (Contains(Lower(tags[0]), q) || AnyTagContains(tags[1..], q))
  }

  /** `post.matches_search(query)`. */
  predicate Matches(p: PostFields, query: string) {
    var q := Lower(query);
    || Contains(Lower(p.title), q)
    || Contains(Lower(p.content), q)
    || Contains(Lower(p.category), q)
    || AnyTagContains(p.tags, q)
  }

  lemma {:induction false} AnyTagContainsIff(tags: seq<string>, q: string)
    ensures AnyTagContains(tags, q) <==> exists k :: 0 <= k < |tags| && IsSubstring(q, Lower(tags[k]))
    decreases |tags|
  {
    if tags != [] {
      ContainsIsSubstring(Lower(tags[0]), q);
      AnyTagContainsIff(tags[1..], q);
      if exists k :: 0 <= k < |tags| && IsSubstring(q, Lower(tags[k])) {
        var k :| 0 <= k < |tags| && IsSubstring(q, Lower(tags[k]));
        if k > 0 {
          assert tags[1..][k - 1] == tags[k];
        }
      }
      if exists k :: 0 <= k < |tags[1..]| && IsSubstring(q, Lower(tags[1..][k])) {
        var k :| 0 <= k < |tags[1..]| && IsSubstring(q, Lower(tags[1..][k]));
        assert tags[k + 1] == tags[1..][k];
      }
    }
  }

  /**
   A post matches a query exactly when the lower-cased query occurs in the
   lower-cased title, content or category, or in some lower-cased tag.
   */
  lemma MatchesIff(p: PostFields, query: string)
    ensures var q := Lower(query);
      Matches(p, query) <==>
        || IsSubstring(q, Lower(p.title))
        || IsSubstring(q, Lower(p.content))
        || IsSubstring(q, Lower(p.category))
        || exists k :: 0 <= k < |p.tags| && IsSubstring(q, Lower(p.tags[k]))
  {
    var q := Lower(query);
    ContainsIsSubstring(Lower(p.title), q);
    ContainsIsSubstring(Lower(p.content), q);
    ContainsIsSubstring(Lower(p.category), q);
    AnyTagContainsIff(p.tags, q);
  }

  /** The empty query matches every post. */
  lemma EmptyQueryMatches(p: PostFields)
    ensures Matches(p, "")
  {
    EmptyIsEverywhere(Lower(p.title));
  }

  /** The search ignores the case of the query. */
  lemma MatchesIgnoresQueryCase(p: PostFields, query: string)
    ensures Matches(p, Lower(query)) == Matches(p, query)
  {
    LowerIdempotent(query);
  }

  /** `post.to_dict()`. */
  function ToDict(p: PostFields): (r: Record)
    ensures forall k :: k in r <==> IsPostKey(k)
    ensures forall k :: k in r ==> r[k] != Null
  {
    map[
      "title" := Str(p.title),
      "content" := Str(p.content),
      "timestamp" := Str(p.timestamp),
      "category" := Str(p.category),
      "tags" := StrList(p.tags)]
  }

  /** The keys `from_dict` reads; every other key of a record is ignored. */
  predicate IsPostKey(k: string) {
    k == "title" || k == "content" || k == "timestamp" || k == "category" || k == "tags"
  }

  /**
   `BlogPost.from_dict(data)`: `title`, `content` and `timestamp` must be
   present (in that order, as Python evaluates them); a missing `category`
   becomes `""` and missing `tags` become `[]`. A `null` timestamp is replaced
   by the clock reading `now` and `null` tags by `[]`, as the constructor does.
   */
  function FromDict(data: Record, now: string): (r: Result<PostFields>)
    ensures r.Ok? ==> "title" in data && "content" in data && "timestamp" in data
    ensures r.Ok? ==> data["title"] == Str(r.value.title) && data["content"] == Str(r.value.content)
    ensures r.Ok? && data["timestamp"].Null? ==> r.value.timestamp == now
  {
    if "title" !in data then Err(MissingKey("title"))
    else if "content" !in data then Err(MissingKey("content"))
    else if "timestamp" !in data then Err(MissingKey("timestamp"))
    else if !data["title"].Str? then Err(BadValue("title"))
    else if !data["content"].Str? then Err(BadValue("content"))
    else if data["timestamp"].StrList? then Err(BadValue("timestamp"))
    else if "category" in data && !data["category"].Str? then Err(BadValue("category"))
    else if "tags" in data && data["tags"].Str? then Err(BadValue("tags"))
    else
      Ok(PostFields(
        data["title"].text,
        data["content"].text,
        if data["timestamp"].Null? then now else data["timestamp"].text,
        if "category" in data then data["category"].text else "",
        if "tags" in data && data["tags"].StrList? then data["tags"].items else []))
  }

  /** Saving a post and reading the record back gives all five fields again. */
  lemma FromDictToDict(p: PostFields, now: string)
    ensures FromDict(ToDict(p), now) == Ok(p)
  {
  }

  /** A record without one of the three required keys is refused, naming the first one missing. */
  lemma FromDictNeedsKeys(data: Record, now: string)
    ensures "title" !in data ==> FromDict(data, now) == Err(MissingKey("title"))
    ensures "title" in data && "content" !in data ==> FromDict(data, now) == Err(MissingKey("content"))
    ensures "title" in data && "content" in data && "timestamp" !in data ==>
              FromDict(data, now) == Err(MissingKey("timestamp"))
  {
  }

  /** A record with only the three required string fields gets an empty category and no tags. */
  lemma FromDictDefaults(title: string, content: string, timestamp: string, now: string)
    ensures FromDict(map["title" := Str(title), "content" := Str(content), "timestamp" := Str(timestamp)], now)
            == Ok(PostFields(title, content, timestamp, "", []))
  {
  }

  /**
   What any accepted record gives: the timestamp string, or the clock reading
   for `null`; the category, or `""` when the key is missing; the tag list, or
   `[]` when the key is missing or `null`.
   */
  lemma FromDictFields(data: Record, now: string)
    requires FromDict(data, now).Ok?
    ensures var p := FromDict(data, now).value;
            && p.timestamp == (if data["timestamp"].Null? then now else data["timestamp"].text)
            && p.category == (if "category" in data then data["category"].text else "")
            && p.tags == (if "tags" in data && data["tags"].StrList? then data["tags"].items else [])
            && ("tags" in data && data["tags"].Null? ==> p.tags == [])
            && ("tags" !in data ==> p.tags == [])
  {
  }

  /** Keys other than the five a post has make no difference to `from_dict`. */
  lemma FromDictIgnoresOtherKeys(data: Record, k: string, v: Value, now: string)
    requires !IsPostKey(k)
    ensures FromDict(data[k := v], now) == FromDict(data, now)
  {
    var d := data[k := v];
    assert forall key :: IsPostKey(key) ==> (key in d <==> key in data);
    assert forall key :: IsPostKey(key) && key in data ==> d[key] == data[key];
  }

  /** `[BlogPost.from_dict(d) for d in records]`: every record's post, or the first record's error. */
  function FromDicts(records: seq<Record>, now: string): (r: Result<seq<PostFields>>)
    ensures r.Ok? ==> |r.value| == |records|
    decreases |records|
  {
    if records == [] then Ok([])
    else
      match FromDict(records[0], now)
      case Err(e) => Err(e)
      case Ok(p) =>
        match FromDicts(records[1..], now)
        case Err(e) => Err(e)
        case Ok(ps) => Ok([p] + ps)
  }

  /** `[post.to_dict() for post in posts]`. */
  function ToDicts(ps: seq<PostFields>): (r: seq<Record>)
    ensures |r| == |ps|
    decreases |ps|
  {
    if ps == [] then [] else [ToDict(ps[0])] + ToDicts(ps[1..])
  }

  /** Reading back a saved list of posts gives the same posts, in the same order. */
  lemma {:induction false} FromDictsToDicts(ps: seq<PostFields>, now: string)
    ensures FromDicts(ToDicts(ps), now) == Ok(ps)
    decreases |ps|
  {
    if ps != [] {
      var rs := ToDicts(ps);
      assert rs[0] == ToDict(ps[0]) && rs[1..] == ToDicts(ps[1..]);
      FromDictToDict(ps[0], now);
      FromDictsToDicts(ps[1..], now);
      assert FromDicts(rs, now) == Ok([ps[0]] + ps[1..]);
      assert [ps[0]] + ps[1..] == ps;
    }
  }

  /** The list loads exactly when every record loads, and each post comes from its own record. */
  lemma {:induction false} FromDictsEach(records: seq<Record>, now: string)
    ensures FromDicts(records, now).Ok? <==> forall k :: 0 <= k < |records| ==> FromDict(records[k], now).Ok?
    ensures FromDicts(records, now).Ok? ==>
              forall k :: 0 <= k < |records| ==> FromDicts(records, now).value[k] == FromDict(records[k], now).value
    decreases |records|
  {
    if records != [] {
      FromDictsEach(records[1..], now);
      assert forall k :: 1 <= k < |records| ==> records[k] == records[1..][k - 1];
    }
  }

  /** A post object; `edit_post` assigns its attributes in place. */
  class BlogPost {
    var title: string
    var content: string
    var timestamp: string
    var category: string
    var tags: seq<string>

    /**
     `BlogPost(title, content, timestamp=None, category="", tags=None)`; `now`
     is the clock reading taken when no timestamp is given.
     */
    constructor (title: string, content: string, timestamp: Option<string>, category: string,
                 tags: Option<seq<string>>, now: string)
      ensures Fields() == PostFields(
                title, content,
                if timestamp.Some? then timestamp.value else now,
                category,
                if tags.Some? then tags.value else [])
    {
      this.title := title;
      this.content := content;
      this.timestamp := if timestamp.Some? then timestamp.value else now;
      this.category := category;
      this.tags := if tags.Some? then tags.value else [];
    }

    /** The attribute assignments of `edit_post`; the title is kept. */
    method Update(content: string, timestamp: string, category: string, tags: seq<string>)
      modifies this
      ensures Fields() == PostFields(old(title), content, timestamp, category, tags)
    {
      this.content := content;
      this.timestamp := timestamp;
      this.category := category;
      this.tags := tags;
    }

    /** The current values of the five attributes. */
    function Fields(): PostFields
      reads this
    {
      PostFields(title, content, timestamp, category, tags)
    }
  }

  /** The current attributes of every post in the list, in list order. */
  function Snapshot(ps: seq<BlogPost>): (r: seq<PostFields>)
    reads ps
    ensures |r| == |ps|
    decreases |ps|
  {
    if ps == [] then [] else [ps[0].Fields()] + Snapshot(ps[1..])
  }

  /** Entry `k` of the snapshot is post `k`'s attributes. */
  lemma {:induction false} SnapshotElements(ps: seq<BlogPost>)
    ensures forall k :: 0 <= k < |ps| ==> Snapshot(ps)[k] == ps[k].Fields()
    decreases |ps|
  {
    if ps != [] {
      SnapshotElements(ps[1..]);
      assert forall k :: 1 <= k < |ps| ==> ps[1..][k - 1] == ps[k];
    }
  }

  /** The snapshot of a list with one more post ends with that post's attributes. */
  lemma SnapshotAppend(ps: seq<BlogPost>, p: BlogPost)
    ensures Snapshot(ps + [p]) == Snapshot(ps) + [p.Fields()]
  {
    SnapshotElements(ps);
    SnapshotElements(ps + [p]);
  }

  /** No element occurs twice in the list. */
  predicate Distinct<T(==)>(s: seq<T>) {
    forall a, b :: 0 <= a < b < |s| ==> s[a] != s[b]
  }

  /**
   The comprehension `[BlogPost.from_dict(d) for d in records]`: a fresh object
   per record, or nothing when some record is refused.
   */
  method LoadRecords(records: seq<Record>, now: string) returns (r: Option<seq<BlogPost>>)
    ensures r.Some? <==> FromDicts(records, now).Ok?
    ensures r.Some? ==> Snapshot(r.value) == FromDicts(records, now).value
    ensures r.Some? ==> Distinct(r.value) && forall k :: 0 <= k < |r.value| ==> fresh(r.value[k])
  {
    var ps: seq<BlogPost> := [];
    var i := 0;
    while i < |records|
      invariant 0 <= i <= |records|
      invariant |ps| == i
      invariant forall k :: 0 <= k < i ==> FromDict(records[k], now) == Ok(ps[k].Fields())
      invariant forall k :: 0 <= k < i ==> fresh(ps[k])
      invariant Distinct(ps)
    {
      var parsed := FromDict(records[i], now);
      if parsed.Err? {
        FromDictsEach(records, now);
        return None;
      }
      var f := parsed.value;
      var post := new BlogPost(f.title, f.content, Some(f.timestamp), f.category, Some(f.tags), now);
      assert post !in ps;
      ps := ps + [post];
      i := i + 1;
    }
    FromDictsEach(records, now);
    SnapshotElements(ps);
    r := Some(ps);
  }
}
