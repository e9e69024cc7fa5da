/** The course catalog and provisioning (ECEBot/controller/course_creation.py):
    classifying course codes by level, loading the catalog tables, naming
    categories, finding a course's category, and creating the role, category
    and channels of a course in a guild when they are missing. */
module CourseCreation {
  import opened Utils
  import opened Builtins
  import opened Guilds

  // ---------------------------------------------------------------------------
  // Catalog data

  /** One table of the catalog document: a display name and its course codes. */
  datatype CourseCategory = CourseCategory(name: string, courses: seq<string>)

  /** The courses of one level, in the order of the level's list. */
  datatype Bucket = Bucket(level: Level, courses: seq<string>)

  /** The level lists of one category, levels in order of first appearance. */
  datatype Entry = Entry(key: Category, levels: seq<Bucket>)

  /** The three module tables AREAS, MINORS_CERTS and COURSES; COURSES keeps
      the insertion order of its categories. */
  datatype Tables = Tables(areas: map<int, string>, minorsCerts: map<string, string>, courses: seq<Entry>)

  datatype LoadError = BadAreaNumber(key: string) | InvalidCourseCode(course: string)

  // ---------------------------------------------------------------------------
  // Course code classifier: the pattern [A-Z]{3}([12345ABCD])\d\d

  predicate LevelChar(c: char) { '1' <= c <= '5' || 'A' <= c <= 'D' }

  /** The pattern matches the six characters starting at `i`. */
  predicate CodeAt(s: string, i: nat)
  {
    i + 6 <= |s| && IsUpper(s[i]) && IsUpper(s[i + 1]) && IsUpper(s[i + 2])
    && LevelChar(s[i + 3]) && IsDigit(s[i + 4]) && IsDigit(s[i + 5])
  }

  /** The leftmost match at or after `from` (`re.search`). */
  function SearchCode(s: string, from: nat): (r: Option<nat>)
    ensures r.Some? ==> from <= r.value && CodeAt(s, r.value)
    ensures r.Some? ==> forall j :: from <= j < r.value ==> !CodeAt(s, j)
    ensures r.None? <==> forall j :: from <= j ==> !CodeAt(s, j)
    decreases |s| - from
  {
    if from + 6 > |s| then None
    else if CodeAt(s, from) then Some(from)
    else SearchCode(s, from + 1)
  }

  /** A level digit d gives d*100; a letter A-D gives its place in the alphabet times 100. */
  function LevelOf(c: char): Level
    requires LevelChar(c)
  {
    if '1' <= c <= '5' then (c as int - '0' as int) * 100
    else (c as int - 'A' as int + 1) * 100
  }

  /** The level of a course code, or None for the `ValueError` of a code with no match. */
  function Classify(course: string): Option<Level>
  {
    match SearchCode(course, 0)
    case None => None
    case Some(i) => Some(LevelOf(course[i + 3]))
  }

  /** Classification reads the level character of the leftmost match, and fails
      exactly when the pattern matches nowhere. */
  lemma ClassifyLeftmost(course: string)
    ensures Classify(course).None? <==> forall j :: 0 <= j ==> !CodeAt(course, j)
    ensures Classify(course).Some? ==>
      exists i: nat :: CodeAt(course, i) && (forall j :: 0 <= j < i ==> !CodeAt(course, j))
                  && Classify(course) == Some(LevelOf(course[i + 3]))
  {
    var r := SearchCode(course, 0);
    if r.Some? {
      assert CodeAt(course, r.value);
    }
  }

  /** Digits give their hundreds, UTSC letters A=100 … D=400. */
  lemma ClassifyExamples()
    ensures Classify("CSE477Y1") == Some(400)
    ensures Classify("CSCA08H3") == Some(100)
    ensures Classify("ECE110H1") == Some(100)
    ensures Classify("MATB41H3") == Some(200)
    ensures Classify("CSCC01H3") == Some(300)
    ensures Classify("CSCD01H3") == Some(400)
  {
    assert CodeAt("CSE477Y1", 0);
    assert CodeAt("CSCA08H3", 0);
    assert CodeAt("ECE110H1", 0);
    assert CodeAt("MATB41H3", 0);
    assert CodeAt("CSCC01H3", 0);
    assert CodeAt("CSCD01H3", 0);
  }

  /** A match may start mid-string or use a letter level; lower case never matches. */
  lemma ClassifyExamplesEdge()
    ensures Classify("xxECE241H1") == Some(200)
    ensures Classify("ECEB10") == Some(200)
    ensures Classify("ece110") == None
  {
    assert !CodeAt("xxECE241H1", 0) && !CodeAt("xxECE241H1", 1) && CodeAt("xxECE241H1", 2);
    assert CodeAt("ECEB10", 0);
  }

  // ---------------------------------------------------------------------------
  // Building the tables

  /** `key.startswith('area-')` gives an area number (or the `ValueError` of `int`). */
  function ParseKey(key: string): Option<Category>
  {
    if |key| >= 5 && key[..5] == "area-" then
      match ParseInt(key[5..])
      case None => None
      case Some(n) => Some(Area(n))
    else Some(MinorCert(key))
  }

  /** `COURSES[category][level].append(course)` on a defaultdict(list). */
  function AddToBuckets(levels: seq<Bucket>, lv: Level, course: string): seq<Bucket>
  {
    if levels == [] then [Bucket(lv, [course])]
    else if levels[0].level == lv then [Bucket(lv, levels[0].courses + [course])] + levels[1..]
    else [levels[0]] + AddToBuckets(levels[1..], lv, course)
  }

  /** The level lists built from a course list, with the first invalid code if any;
      the buckets filled before an invalid code are kept. */
  function Fill(courses: seq<string>): (seq<Bucket>, Option<LoadError>)
  {
    if courses == [] then ([], None)
    else
      var (b, e) := Fill(courses[..|courses| - 1]);
      var c := courses[|courses| - 1];
      if e.Some? then (b, e)
      else match Classify(c)
        case None => (b, Some(InvalidCourseCode(c)))
        case Some(lv) => (AddToBuckets(b, lv, c), None)
  }

  /** Every level list sorted (`course_list.sort()`). */
  function SortBuckets(levels: seq<Bucket>): seq<Bucket>
  {
    seq(|levels|, i requires 0 <= i < |levels| => Bucket(levels[i].level, SortBy(levels[i].courses, StrLe)))
  }

  /** `COURSES[key] = levels`: replaces an existing entry in place, or appends. */
  function SetEntry(cs: seq<Entry>, key: Category, levels: seq<Bucket>): seq<Entry>
  {
    if cs == [] then [Entry(key, levels)]
    else if cs[0].key == key then [Entry(key, levels)] + cs[1..]
    else [cs[0]] + SetEntry(cs[1..], key, levels)
  }

  /** The level lists of a category, if it has an entry. */
  function Lookup(cs: seq<Entry>, key: Category): Option<seq<Bucket>>
  {
    if cs == [] then None else if cs[0].key == key then Some(cs[0].levels) else Lookup(cs[1..], key)
  }

  /** One iteration of the outer loop of `load_course_info`. */
  function LoadKey(t: Tables, key: string, value: CourseCategory): (Tables, Option<LoadError>)
  {
    match ParseKey(key)
    case None => (t, Some(BadAreaNumber(key)))
    case Some(cat) =>
      var t1 := match cat
        case Area(n) => t.(areas := t.areas[n := value.name])
        case MinorCert(k) => t.(minorsCerts := t.minorsCerts[k := value.name]);
      var (b, e) := Fill(value.courses);
      var levels := if e.None? then SortBuckets(b) else b;
      (t1.(courses := SetEntry(t1.courses, cat, levels)), e)
  }

  /** The whole load: stops at the first error, keeping what was written before it. */
  function LoadAll(t: Tables, doc: seq<(string, CourseCategory)>): (Tables, Option<LoadError>)
  {
    if doc == [] then (t, None)
    else
      var (t1, e) := LoadAll(t, doc[..|doc| - 1]);
      if e.Some? then (t1, e) else LoadKey(t1, doc[|doc| - 1].0, doc[|doc| - 1].1)
  }

  lemma {:induction false} FillErrorSticks(courses: seq<string>, n: nat)
    requires n <= |courses| && Fill(courses[..n]).1.Some?
    ensures Fill(courses) == Fill(courses[..n])
    decreases |courses| - n
  {
    if n < |courses| {
      assert courses[..n + 1][..n] == courses[..n];
      FillErrorSticks(courses, n + 1);
    } else {
      assert courses[..n] == courses;
    }
  }

  lemma {:induction false} LoadAllErrorSticks(t: Tables, doc: seq<(string, CourseCategory)>, n: nat)
    requires n <= |doc| && LoadAll(t, doc[..n]).1.Some?
    ensures LoadAll(t, doc) == LoadAll(t, doc[..n])
    decreases |doc| - n
  {
    if n < |doc| {
      assert doc[..n + 1][..n] == doc[..n];
      LoadAllErrorSticks(t, doc, n + 1);
    } else {
      assert doc[..n] == doc;
    }
  }

  lemma {:induction false} SetEntryTwice(cs: seq<Entry>, key: Category, a: seq<Bucket>, b: seq<Bucket>)
    ensures SetEntry(SetEntry(cs, key, a), key, b) == SetEntry(cs, key, b)
  {
    if cs != [] && cs[0].key != key {
      SetEntryTwice(cs[1..], key, a, b);
    }
  }

  /** The module tables, filled in place by `load_course_info`. */
  class CourseInfo {
    var areas: map<int, string>
    var minorsCerts: map<string, string>
    var courses: seq<Entry>

    function Value(): Tables
      reads this
    {
      Tables(areas, minorsCerts, courses)
    }

    constructor ()
      ensures Value() == Tables(map[], map[], [])
    {
      areas, minorsCerts, courses := map[], map[], [];
    }

    /** `load_course_info` over the parsed document: on an error the tables keep
        everything written before it. */
    method LoadCourseInfo(doc: seq<(string, CourseCategory)>) returns (err: Option<LoadError>)
      modifies this
      ensures (Value(), err) == LoadAll(old(Value()), doc)
    {
      ghost var t0 := Value();
      var i := 0;
      while i < |doc|
        invariant 0 <= i <= |doc|
        invariant LoadAll(t0, doc[..i]) == (Value(), None)
      {
        assert doc[..i + 1][..i] == doc[..i];
        err := LoadCategory(doc[i].0, doc[i].1);
        if err.Some? {
          LoadAllErrorSticks(t0, doc, i + 1);
          return;
        }
        i := i + 1;
      }
      assert doc[..i] == doc;
      err := None;
    }

    /** One iteration of the outer loop: store the name, reset the category's
        entry, fill it and sort its lists. */
    method LoadCategory(key: string, value: CourseCategory) returns (err: Option<LoadError>)
      modifies this
      ensures (Value(), err) == LoadKey(old(Value()), key, value)
    {
      var cat: Category;
      if |key| >= 5 && key[..5] == "area-" {
        var n := ParseInt(key[5..]);
        if n.None? {
          err := Some(BadAreaNumber(key));
          return;
        }
        cat := Area(n.value);
        areas := areas[n.value := value.name];
      } else {
        cat := MinorCert(key);
        minorsCerts := minorsCerts[key := value.name];
      }
      ghost var cs1 := courses;
      courses := SetEntry(courses, cat, []);
      var levels;
      levels, err := FillLevels(value.courses);
      if err.None? {
        levels := SortLevels(levels);
      }
      courses := SetEntry(courses, cat, levels);
      SetEntryTwice(cs1, cat, [], levels);
    }
  }

  /** The inner loop of `load_course_info`: appends each course to the list of
      its level, stopping at the first code that does not classify. */
  method FillLevels(courses: seq<string>) returns (levels: seq<Bucket>, err: Option<LoadError>)
    ensures (levels, err) == Fill(courses)
  {
    levels := [];
    var j := 0;
    while j < |courses|
      invariant 0 <= j <= |courses|
      invariant Fill(courses[..j]) == (levels, None)
    {
      assert courses[..j + 1][..j] == courses[..j];
      var course := courses[j];
      var lv := Classify(course);
      if lv.None? {
        err := Some(InvalidCourseCode(course));
        FillErrorSticks(courses, j + 1);
        return;
      }
      levels := AddToBuckets(levels, lv.value, course);
      j := j + 1;
    }
    assert courses[..j] == courses;
    err := None;
  }

  /** `for course_list in COURSES[category].values(): course_list.sort()`. */
  method SortLevels(filled: seq<Bucket>) returns (levels: seq<Bucket>)
    ensures levels == SortBuckets(filled)
  {
    levels := filled;
    var k := 0;
    while k < |levels|
      invariant 0 <= k <= |levels| == |filled|
      invariant forall i :: 0 <= i < k ==> levels[i] == SortBuckets(filled)[i]
      invariant forall i :: k <= i < |levels| ==> levels[i] == filled[i]
    {
      levels := levels[k := Bucket(levels[k].level, SortBy(levels[k].courses, StrLe))];
      k := k + 1;
    }
  }

  // ---------------------------------------------------------------------------
  // What a loaded category looks like

  /** The courses of a list whose level is `lv`, in list order. */
  function WithLevel(courses: seq<string>, lv: Level): seq<string>
  {
    if courses == [] then []
    else WithLevel(courses[..|courses| - 1], lv)
         + (if Classify(courses[|courses| - 1]) == Some(lv) then [courses[|courses| - 1]] else [])
  }

  ghost predicate DistinctLevels(levels: seq<Bucket>)
  {
    forall i, j :: 0 <= i < j < |levels| ==> levels[i].level != levels[j].level
  }

  /** The buckets hold, level by level, exactly the courses of that level (as multisets),
      no bucket is empty, and every level that occurs has a bucket. */
  ghost predicate BucketsMatch(levels: seq<Bucket>, courses: seq<string>)
  {
    && DistinctLevels(levels)
    && (forall i :: 0 <= i < |levels| ==> levels[i].courses != [])
    && (forall i :: 0 <= i < |levels| ==> multiset(levels[i].courses) == multiset(WithLevel(courses, levels[i].level)))
    && (forall lv: Level :: WithLevel(courses, lv) != [] ==> exists i :: 0 <= i < |levels| && levels[i].level == lv)
  }

  lemma {:induction false} AddToBucketsShape(levels: seq<Bucket>, lv: Level, course: string)
    requires DistinctLevels(levels)
    ensures (exists i :: 0 <= i < |levels| && levels[i].level == lv) ==>
      forall i :: 0 <= i < |levels| && levels[i].level == lv ==>
        AddToBuckets(levels, lv, course) == levels[i := Bucket(lv, levels[i].courses + [course])]
    ensures (forall i :: 0 <= i < |levels| ==> levels[i].level != lv) ==>
      AddToBuckets(levels, lv, course) == levels + [Bucket(lv, [course])]
  {
    if levels != [] {
      AddToBucketsShape(levels[1..], lv, course);
      if levels[0].level != lv {
        forall i | 0 <= i < |levels| && levels[i].level == lv
          ensures AddToBuckets(levels, lv, course) == levels[i := Bucket(lv, levels[i].courses + [course])]
        {
          assert levels[1..][i - 1].level == lv;
          assert [levels[0]] + levels[1..][i - 1 := Bucket(lv, levels[i].courses + [course])]
              == levels[i := Bucket(lv, levels[i].courses + [course])];
        }
        if forall i :: 0 <= i < |levels| ==> levels[i].level != lv {
          assert forall i :: 0 <= i < |levels[1..]| ==> levels[1..][i].level != lv by {
            forall i | 0 <= i < |levels[1..]| ensures levels[1..][i].level != lv {
              assert levels[1..][i] == levels[i + 1];
            }
          }
          assert [levels[0]] + (levels[1..] + [Bucket(lv, [course])]) == levels + [Bucket(lv, [course])];
        }
      }
    }
  }

  lemma WithLevelStep(courses: seq<string>, c: string, l: Level)
    ensures WithLevel(courses + [c], l) == WithLevel(courses, l) + (if Classify(c) == Some(l) then [c] else [])
  {
    assert (courses + [c])[..|courses + [c]| - 1] == courses;
  }

  /** Appending to an existing bucket keeps the buckets matching. */
  lemma AppendToBucketMatches(b: seq<Bucket>, init: seq<string>, c: string, lv: Level, i: nat)
    requires BucketsMatch(b, init) && Classify(c) == Some(lv)
    requires i < |b| && b[i].level == lv
    ensures BucketsMatch(b[i := Bucket(lv, b[i].courses + [c])], init + [c])
  {
    AppendToBucketContents(b, init, c, lv, i);
    AppendToBucketCovers(b, init, c, lv, i);
  }

  lemma AppendToBucketContents(b: seq<Bucket>, init: seq<string>, c: string, lv: Level, i: nat)
    requires BucketsMatch(b, init) && Classify(c) == Some(lv)
    requires i < |b| && b[i].level == lv
    ensures var b' := b[i := Bucket(lv, b[i].courses + [c])];
      && DistinctLevels(b')
      && forall k :: 0 <= k < |b'| ==>
           b'[k].courses != [] && multiset(b'[k].courses) == multiset(WithLevel(init + [c], b'[k].level))
  {
    var b' := b[i := Bucket(lv, b[i].courses + [c])];
    assert forall k :: 0 <= k < |b| ==> b'[k].level == b[k].level;
    forall k | 0 <= k < |b'|
      ensures b'[k].courses != []
      ensures multiset(b'[k].courses) == multiset(WithLevel(init + [c], b'[k].level))
    {
      WithLevelStep(init, c, b[k].level);
      if k != i {
        assert b'[k] == b[k];
      }
    }
  }

  lemma AppendToBucketCovers(b: seq<Bucket>, init: seq<string>, c: string, lv: Level, i: nat)
    requires BucketsMatch(b, init) && Classify(c) == Some(lv)
    requires i < |b| && b[i].level == lv
    ensures var b' := b[i := Bucket(lv, b[i].courses + [c])];
      forall l: Level :: WithLevel(init + [c], l) != [] ==> exists k :: 0 <= k < |b'| && b'[k].level == l
  {
    var b' := b[i := Bucket(lv, b[i].courses + [c])];
    forall l: Level | WithLevel(init + [c], l) != []
      ensures exists k :: 0 <= k < |b'| && b'[k].level == l
    {
      WithLevelStep(init, c, l);
      if l != lv {
        var k :| 0 <= k < |b| && b[k].level == l;
        assert b'[k].level == l;
      } else {
        assert b'[i].level == l;
      }
    }
  }

  /** Opening a bucket for a level not yet present keeps the buckets matching. */
  lemma NewBucketMatches(b: seq<Bucket>, init: seq<string>, c: string, lv: Level)
    requires BucketsMatch(b, init) && Classify(c) == Some(lv)
    requires forall k :: 0 <= k < |b| ==> b[k].level != lv
    ensures BucketsMatch(b + [Bucket(lv, [c])], init + [c])
  {
    NewBucketContents(b, init, c, lv);
    NewBucketCovers(b, init, c, lv);
  }

  lemma NewBucketContents(b: seq<Bucket>, init: seq<string>, c: string, lv: Level)
    requires BucketsMatch(b, init) && Classify(c) == Some(lv)
    requires forall k :: 0 <= k < |b| ==> b[k].level != lv
    ensures var b' := b + [Bucket(lv, [c])];
      && DistinctLevels(b')
      && forall k :: 0 <= k < |b'| ==>
           b'[k].courses != [] && multiset(b'[k].courses) == multiset(WithLevel(init + [c], b'[k].level))
  {
    var b' := b + [Bucket(lv, [c])];
    WithLevelStep(init, c, lv);
    assert WithLevel(init, lv) == [];
    forall k | 0 <= k < |b'|
      ensures b'[k].courses != []
      ensures multiset(b'[k].courses) == multiset(WithLevel(init + [c], b'[k].level))
    {
      WithLevelStep(init, c, b'[k].level);
      if k < |b| {
        assert b'[k] == b[k];
      }
    }
  }

  lemma NewBucketCovers(b: seq<Bucket>, init: seq<string>, c: string, lv: Level)
    requires BucketsMatch(b, init) && Classify(c) == Some(lv)
    ensures var b' := b + [Bucket(lv, [c])];
      forall l: Level :: WithLevel(init + [c], l) != [] ==> exists k :: 0 <= k < |b'| && b'[k].level == l
  {
    var b' := b + [Bucket(lv, [c])];
    forall l: Level | WithLevel(init + [c], l) != []
      ensures exists k :: 0 <= k < |b'| && b'[k].level == l
    {
      WithLevelStep(init, c, l);
      if l != lv {
        var k :| 0 <= k < |b| && b[k].level == l;
        assert b'[k].level == l;
      } else {
        assert b'[|b|].level == l;
      }
    }
  }

  lemma {:induction false} FillMatches(courses: seq<string>)
    requires Fill(courses).1.None?
    ensures BucketsMatch(Fill(courses).0, courses)
  {
    if courses != [] {
      var init := courses[..|courses| - 1];
      var c := courses[|courses| - 1];
      assert courses == init + [c];
      var b := Fill(init).0;
      FillMatches(init);
      var lv := Classify(c).value;
      AddToBucketsShape(b, lv, c);
      if i :| 0 <= i < |b| && b[i].level == lv {
        AppendToBucketMatches(b, init, c, lv, i);
      } else {
        NewBucketMatches(b, init, c, lv);
      }
    }
  }

  /** Each level list holds its level's courses in the order they were appended. */
  ghost predicate InOrder(levels: seq<Bucket>, courses: seq<string>)
  {
    forall i :: 0 <= i < |levels| ==> levels[i].courses == WithLevel(courses, levels[i].level)
  }

  /** Appending a course to its level's list keeps every list in input order. */
  lemma AddToBucketsInOrder(b: seq<Bucket>, init: seq<string>, c: string, lv: Level)
    requires BucketsMatch(b, init) && InOrder(b, init) && Classify(c) == Some(lv)
    ensures InOrder(AddToBuckets(b, lv, c), init + [c])
  {
    AddToBucketsShape(b, lv, c);
    if i :| 0 <= i < |b| && b[i].level == lv {
      AppendToBucketInOrder(b, init, c, lv, i);
    } else {
      assert WithLevel(init, lv) == [];
      NewBucketInOrder(b, init, c, lv);
    }
  }

  lemma AppendToBucketInOrder(b: seq<Bucket>, init: seq<string>, c: string, lv: Level, i: nat)
    requires DistinctLevels(b) && InOrder(b, init) && Classify(c) == Some(lv)
    requires i < |b| && b[i].level == lv
    ensures InOrder(b[i := Bucket(lv, b[i].courses + [c])], init + [c])
  {
    var b' := b[i := Bucket(lv, b[i].courses + [c])];
    forall k | 0 <= k < |b'| ensures b'[k].courses == WithLevel(init + [c], b'[k].level) {
      WithLevelStep(init, c, b[k].level);
      if k != i {
        assert b'[k] == b[k] && b[k].level != lv;
      }
    }
  }

  lemma NewBucketInOrder(b: seq<Bucket>, init: seq<string>, c: string, lv: Level)
    requires InOrder(b, init) && Classify(c) == Some(lv) && WithLevel(init, lv) == []
    requires forall k :: 0 <= k < |b| ==> b[k].level != lv
    ensures InOrder(b + [Bucket(lv, [c])], init + [c])
  {
    var b' := b + [Bucket(lv, [c])];
    forall k | 0 <= k < |b'| ensures b'[k].courses == WithLevel(init + [c], b'[k].level) {
      WithLevelStep(init, c, b'[k].level);
      if k < |b| {
        assert b'[k] == b[k];
      }
    }
  }

  /** The level lists keep input order: after a full fill each list is its level's
      courses in order, and after a failing code `courses[n]` the partial lists left
      behind are those of the courses before it. */
  lemma {:induction false} FillInOrder(courses: seq<string>)
    ensures Fill(courses).1.None? ==> InOrder(Fill(courses).0, courses)
    ensures Fill(courses).1.Some? ==>
      exists n :: 0 <= n < |courses| && Classify(courses[n]).None? && Fill(courses[..n]).1.None?
        && Fill(courses).0 == Fill(courses[..n]).0 && InOrder(Fill(courses).0, courses[..n])
  {
    if courses != [] {
      var init := courses[..|courses| - 1];
      var c := courses[|courses| - 1];
      assert courses == init + [c];
      FillInOrder(init);
      var (b, e) := Fill(init);
      if e.Some? {
        var n :| 0 <= n < |init| && Classify(init[n]).None? && Fill(init[..n]).1.None?
          && b == Fill(init[..n]).0 && InOrder(b, init[..n]);
        assert courses[..n] == init[..n] && courses[n] == init[n];
      } else {
        FillMatches(init);
        if Classify(c).None? {
          assert courses[..|init|] == init;
        } else {
          AddToBucketsInOrder(b, init, c, Classify(c).value);
        }
      }
    }
  }

  lemma SortBucketsMatch(levels: seq<Bucket>, courses: seq<string>)
    requires BucketsMatch(levels, courses)
    ensures BucketsMatch(SortBuckets(levels), courses)
    ensures forall i :: 0 <= i < |SortBuckets(levels)| ==> SortedBy(SortBuckets(levels)[i].courses, StrLe)
  {
    StrLeTotalPreorder();
    var s := SortBuckets(levels);
    assert |s| == |levels|;
    assert forall i :: 0 <= i < |s| ==> s[i].level == levels[i].level;
    forall i | 0 <= i < |s|
      ensures multiset(s[i].courses) == multiset(levels[i].courses)
      ensures SortedBy(s[i].courses, StrLe)
    {
      SortByCorrect(levels[i].courses, StrLe);
    }
    assert forall i :: 0 <= i < |s| ==> s[i].courses != [] by {
      forall i | 0 <= i < |s| ensures s[i].courses != [] {
        assert levels[i].courses[0] in multiset(s[i].courses);
      }
    }
    forall lv: Level | WithLevel(courses, lv) != []
      ensures exists i :: 0 <= i < |s| && s[i].level == lv
    {
      var i :| 0 <= i < |levels| && levels[i].level == lv;
      assert s[i].level == lv;
    }
  }

  lemma {:induction false} SetEntryLookup(cs: seq<Entry>, key: Category, levels: seq<Bucket>)
    ensures Lookup(SetEntry(cs, key, levels), key) == Some(levels)
    ensures forall k :: k != key ==> Lookup(SetEntry(cs, key, levels), k) == Lookup(cs, k)
  {
    if cs != [] && cs[0].key != key {
      SetEntryLookup(cs[1..], key, levels);
    }
  }

  /** After a category's table loads without error, its entry holds one sorted,
      non-empty list per level that occurs, and each is a permutation (duplicates
      included) of exactly that table's courses with that level. */
  lemma LoadKeyBuckets(t: Tables, key: string, value: CourseCategory)
    requires LoadKey(t, key, value).1.None?
    ensures ParseKey(key).Some?
    ensures var levels := Lookup(LoadKey(t, key, value).0.courses, ParseKey(key).value);
      && levels.Some?
      && BucketsMatch(levels.value, value.courses)
      && forall i :: 0 <= i < |levels.value| ==> SortedBy(levels.value[i].courses, StrLe)
  {
    var cat := ParseKey(key).value;
    FillMatches(value.courses);
    SortBucketsMatch(Fill(value.courses).0, value.courses);
    SetEntryLookup(t.courses, cat, SortBuckets(Fill(value.courses).0));
  }

  /** Whether or not its courses are valid, a key with a valid name stores its
      display name (`AREAS[N]` for `area-N`, `MINORS_CERTS[key]` otherwise) and
      gets a COURSES entry; a bad area number changes nothing. */
  lemma LoadKeyNames(t: Tables, key: string, value: CourseCategory)
    ensures ParseKey(key).None? ==> LoadKey(t, key, value) == (t, Some(BadAreaNumber(key)))
    ensures ParseKey(key).Some? ==>
      var t' := LoadKey(t, key, value).0;
      && Lookup(t'.courses, ParseKey(key).value).Some?
      && (forall k :: k != ParseKey(key).value ==> Lookup(t'.courses, k) == Lookup(t.courses, k))
      && match ParseKey(key).value
         case Area(n) => t'.areas == t.areas[n := value.name] && t'.minorsCerts == t.minorsCerts
         case MinorCert(k) => k == key && t'.minorsCerts == t.minorsCerts[key := value.name] && t'.areas == t.areas
  {
    if ParseKey(key).Some? {
      var cat := ParseKey(key).value;
      var (b, e) := Fill(value.courses);
      SetEntryLookup(t.courses, cat, if e.None? then SortBuckets(b) else b);
    }
  }

  /** Loading never removes a category or a name already in the tables, so an
      error does not roll back the keys loaded before it. */
  lemma {:induction false} LoadAllMonotone(t: Tables, doc: seq<(string, CourseCategory)>)
    ensures var t' := LoadAll(t, doc).0;
      && t.areas.Keys <= t'.areas.Keys
      && t.minorsCerts.Keys <= t'.minorsCerts.Keys
      && forall k :: Lookup(t.courses, k).Some? ==> Lookup(t'.courses, k).Some?
  {
    if doc != [] {
      var prefix := doc[..|doc| - 1];
      LoadAllMonotone(t, prefix);
      var (t1, e) := LoadAll(t, prefix);
      if e.None? {
        LoadKeyNames(t1, doc[|doc| - 1].0, doc[|doc| - 1].1);
      }
    }
  }

  /** A load without error gives every key of the document a COURSES entry. */
  lemma {:induction false} LoadAllEntries(t: Tables, doc: seq<(string, CourseCategory)>)
    requires LoadAll(t, doc).1.None?
    ensures forall i :: 0 <= i < |doc| ==>
      ParseKey(doc[i].0).Some? && Lookup(LoadAll(t, doc).0.courses, ParseKey(doc[i].0).value).Some?
  {
    if doc != [] {
      var prefix := doc[..|doc| - 1];
      var (t1, e) := LoadAll(t, prefix);
      LoadAllEntries(t, prefix);
      var last := doc[|doc| - 1];
      LoadKeyNames(t1, last.0, last.1);
      forall i | 0 <= i < |doc|
        ensures ParseKey(doc[i].0).Some? && Lookup(LoadAll(t, doc).0.courses, ParseKey(doc[i].0).value).Some?
      {
        if i < |doc| - 1 {
          assert doc[i] == prefix[i];
        }
      }
    }
  }
  // ---------------------------------------------------------------------------
  // Category names and course lookup

  /** `amc_name`: an area number n becomes "Area n"; a minor/certificate key is its own name. */
  function AmcName(amc: Category): string
  {
    match amc
    case Area(n) => "Area " + IntToString(n)
    case MinorCert(k) => k
  }

  /** The name of an area is "Area " followed by its number's decimal text, and
      the catalog key "area-" followed by that text loads as the same area. */
  lemma AmcNameArea(n: int)
    ensures |AmcName(Area(n))| > 5 && AmcName(Area(n))[..5] == "Area "
    ensures ParseInt(AmcName(Area(n))[5..]) == Some(n)
    ensures ParseKey("area-" + IntToString(n)) == Some(Area(n))
  {
    ParseIntToString(n);
    NatToStringDigits(if n < 0 then -n else n);
    assert AmcName(Area(n))[5..] == IntToString(n);
    assert ("area-" + IntToString(n))[..5] == "area-";
    assert ("area-" + IntToString(n))[5..] == IntToString(n);
  }

  /** The course appears in one of the category's level lists. */
  predicate InEntry(e: Entry, course: string)
  {
    exists k :: 0 <= k < |e.levels| && course in e.levels[k].courses
  }

  /** `course_amc`: the first category, in COURSES order, listing the course;
      None is the `ValueError` of a course listed nowhere. */
  function CourseAmc(cs: seq<Entry>, course: string): (r: Option<Category>)
    ensures r.None? <==> forall i :: 0 <= i < |cs| ==> !InEntry(cs[i], course)
    ensures r.Some? ==>
      exists i :: 0 <= i < |cs| && cs[i].key == r.value && InEntry(cs[i], course)
                  && forall j :: 0 <= j < i ==> !InEntry(cs[j], course)
  {
    if cs == [] then None
    else if InEntry(cs[0], course) then Some(cs[0].key)
    else
      var r := CourseAmc(cs[1..], course);
      if r.Some? then CourseAmcShift(cs, course, r.value); r else r
  }

  /** The first listing category of `cs[1..]` is the first of `cs` when `cs[0]` does not list the course. */
  lemma CourseAmcShift(cs: seq<Entry>, course: string, key: Category)
    requires cs != [] && !InEntry(cs[0], course)
    requires exists i :: 0 <= i < |cs[1..]| && cs[1..][i].key == key && InEntry(cs[1..][i], course)
                         && forall j :: 0 <= j < i ==> !InEntry(cs[1..][j], course)
    ensures exists i :: 0 <= i < |cs| && cs[i].key == key && InEntry(cs[i], course)
                        && forall j :: 0 <= j < i ==> !InEntry(cs[j], course)
  {
    var i :| 0 <= i < |cs[1..]| && cs[1..][i].key == key && InEntry(cs[1..][i], course)
             && forall j :: 0 <= j < i ==> !InEntry(cs[1..][j], course);
    assert cs[i + 1] == cs[1..][i];
    forall j | 0 <= j < i + 1 ensures !InEntry(cs[j], course) {
      if j > 0 {
        assert cs[j] == cs[1..][j - 1];
      }
    }
  }

  // ---------------------------------------------------------------------------
  // Provisioning a course

  const COURSE_CHANNEL_SUFFIXES: seq<string> := ["", "-hw-help"]

  /** The overwrites of a new category: hidden from everyone, readable by the
      category role, managed by the bot. */
  function CategoryOverwrites(amcRole: nat): Overwrites
  {
    map[Everyone := NoRead, RoleTarget(amcRole) := Read, Me := Manage]
  }

  /** The overwrites of a new course channel: those of the category, plus read
      access for the course role. */
  function ChannelOverwrites(amcRole: nat, courseRole: nat): Overwrites
  {
    map[Everyone := NoRead, RoleTarget(amcRole) := Read, RoleTarget(courseRole) := Read, Me := Manage]
  }

  /** `course.lower() + suffix` for each suffix, in order. */
  function ChannelNames(course: string): seq<string>
  {
    seq(|COURSE_CHANNEL_SUFFIXES|, k requires 0 <= k < |COURSE_CHANNEL_SUFFIXES| => Lower(course) + COURSE_CHANNEL_SUFFIXES[k])
  }

  datatype AddResult = Provisioned(role: Role, channels: seq<TextChannel>) | MissingAmcRole

  /** The suffix loop: create each named channel in the category unless it is found there. */
  function EnsureChannels(s: GuildState, parent: nat, names: seq<string>, ow: Overwrites): GuildState
    decreases |names|
  {
    if names == [] then s
    else
      var s1 := if ChannelNamedIn(s.channels, parent, names[0]).Some? then s else WithChannel(s, parent, names[0], ow);
      EnsureChannels(s1, parent, names[1..], ow)
  }

  /** The course role: the first role named after the course, or a new one. */
  function EnsureRole(s: GuildState, course: string): (GuildState, Role)
  {
    match RoleNamed(s.roles, course)
    case Some(ri) => (s, s.roles[ri])
    case None => (WithRole(s, course), Role(s.nextId, course))
  }

  /** The category: the first category with the category's name, or a new one
      with the category overwrites. */
  function EnsureCategory(s: GuildState, name: string, amcRole: nat): (GuildState, CategoryChannel)
  {
    match CategoryNamed(s.categories, name)
    case Some(ci) => (s, s.categories[ci])
    case None => (WithCategory(s, name, CategoryOverwrites(amcRole)),
                  CategoryChannel(s.nextId, name, CategoryOverwrites(amcRole)))
  }

  /** `add_course(guild, amc, course)` on guild values. */
  function AddCourseSpec(s: GuildState, amc: Category, course: string): (GuildState, AddResult)
  {
    var name := AmcName(amc);
    match RoleNamed(s.roles, name)
    case None => (s, MissingAmcRole)
    case Some(ai) =>
      var amcRole := s.roles[ai];
      var (s1, role) := EnsureRole(s, course);
      var (s2, cat) := EnsureCategory(s1, name, amcRole.id);
      (EnsureChannels(s2, cat.id, ChannelNames(course), ChannelOverwrites(amcRole.id, role.id)), Provisioned(role, []))
  }

  /** `add_course`: finds or creates the course role, the category and the course channels. */
  method AddCourse(g: Guild, amc: Category, course: string) returns (r: AddResult)
    modifies g
    ensures (g.State(), r) == AddCourseSpec(old(g.State()), amc, course)
  {
    var name := AmcName(amc);
    var ai := RoleNamed(g.roles, name);
    if ai.None? {
      return MissingAmcRole;
    }
    var amcRole := g.roles[ai.value];
    ghost var s0 := g.State();
    var role: Role;
    var ri := RoleNamed(g.roles, course);
    if ri.None? {
      role := g.CreateRole(course);
    } else {
      role := g.roles[ri.value];
    }
    assert (g.State(), role) == EnsureRole(s0, course);
    ghost var s1 := g.State();
    var category: CategoryChannel;
    var ci := CategoryNamed(g.categories, name);
    if ci.None? {
      category := g.CreateCategory(name, CategoryOverwrites(amcRole.id));
    } else {
      category := g.categories[ci.value];
    }
    assert (g.State(), category) == EnsureCategory(s1, name, amcRole.id);
    CreateCourseChannels(g, category.id, course, ChannelOverwrites(amcRole.id, role.id));
    return Provisioned(role, []);
  }

  /** The suffix loop of `add_course`: each course channel missing from the
      category is created in it. */
  method CreateCourseChannels(g: Guild, parent: nat, course: string, ow: Overwrites)
    modifies g
    ensures g.State() == EnsureChannels(old(g.State()), parent, ChannelNames(course), ow)
  {
    var names := ChannelNames(course);
    var i := 0;
    while i < |COURSE_CHANNEL_SUFFIXES|
      invariant 0 <= i <= |names|
      invariant EnsureChannels(g.State(), parent, names[i..], ow) == EnsureChannels(old(g.State()), parent, names, ow)
    {
      var channelName := Lower(course) + COURSE_CHANNEL_SUFFIXES[i];
      assert names[i..][0] == channelName && names[i..][1..] == names[i + 1..];
      var found := ChannelNamedIn(g.channels, parent, channelName);
      if found.None? {
        var channel := g.CreateTextChannel(parent, channelName, ow);
      }
      i := i + 1;
    }
    assert names[i..] == [];
  }

  /** The course role stage only appends, and afterwards the role it returns is
      the first one named after the course; running it again finds that role. */
  lemma EnsureRoleFacts(s: GuildState, course: string)
    ensures var (s', role) := EnsureRole(s, course);
      && role.name == course
      && s'.categories == s.categories && s'.channels == s.channels
      && (RoleNamed(s.roles, course).Some? ==> s' == s && role == s.roles[RoleNamed(s.roles, course).value])
      && (RoleNamed(s.roles, course).None? ==> s' == WithRole(s, course) && role == Role(s.nextId, course))
      && (forall n :: RoleNamed(s.roles, n).Some? ==> RoleNamed(s'.roles, n) == RoleNamed(s.roles, n))
      && EnsureRole(s', course) == (s', role)
      && (ValidState(s) ==> ValidState(s'))
  {
    var (s', role) := EnsureRole(s, course);
    if ValidState(s) {
      WithRoleValid(s, course);
    }
    forall n | RoleNamed(s.roles, n).Some? ensures RoleNamed(s'.roles, n) == RoleNamed(s.roles, n) {
      FirstAppend(s.roles, [Role(s.nextId, course)], RoleHasName(n));
    }
    FirstAppend(s.roles, [Role(s.nextId, course)], RoleHasName(course));
  }

  /** The category stage only appends, and afterwards the category it returns
      is the first one with the name; running it again finds that category. */
  lemma EnsureCategoryFacts(s: GuildState, name: string, amcRole: nat)
    ensures var (s', cat) := EnsureCategory(s, name, amcRole);
      && cat.name == name
      && s'.roles == s.roles && s'.channels == s.channels
      && (CategoryNamed(s.categories, name).Some? ==> s' == s && cat == s.categories[CategoryNamed(s.categories, name).value])
      && (CategoryNamed(s.categories, name).None? ==>
            s' == WithCategory(s, name, CategoryOverwrites(amcRole))
            && cat == CategoryChannel(s.nextId, name, CategoryOverwrites(amcRole)))
      && EnsureCategory(s', name, amcRole) == (s', cat)
      && (ValidState(s) ==> ValidState(s'))
  {
    if ValidState(s) {
      WithCategoryValid(s, name, CategoryOverwrites(amcRole));
    }
    FirstAppend(s.categories, [CategoryChannel(s.nextId, name, CategoryOverwrites(amcRole))], CategoryHasName(name));
  }

  /** The suffix loop only appends channels, each inside the category with the
      given overwrites and one of the given names. */
  lemma {:induction false} EnsureChannelsFrame(s: GuildState, parent: nat, names: seq<string>, ow: Overwrites)
    ensures var s' := EnsureChannels(s, parent, names, ow);
      && s'.roles == s.roles && s'.categories == s.categories
      && |s.channels| <= |s'.channels| && s'.channels[..|s.channels|] == s.channels
      && (forall j :: |s.channels| <= j < |s'.channels| ==>
            s'.channels[j].parent == parent && s'.channels[j].overwrites == ow && s'.channels[j].name in names)
    decreases |names|
  {
    if names != [] {
      var s1 := if ChannelNamedIn(s.channels, parent, names[0]).Some? then s else WithChannel(s, parent, names[0], ow);
      EnsureChannelsFrame(s1, parent, names[1..], ow);
      var s' := EnsureChannels(s1, parent, names[1..], ow);
      assert s1.channels[..|s.channels|] == s.channels;
      assert s'.channels[..|s.channels|] == s1.channels[..|s1.channels|][..|s.channels|];
      forall j | |s.channels| <= j < |s'.channels|
        ensures s'.channels[j].parent == parent && s'.channels[j].overwrites == ow && s'.channels[j].name in names
      {
        if j >= |s1.channels| {
          assert s'.channels[j].name in names[1..];
        } else {
          assert s'.channels[j] == s1.channels[j];
        }
      }
    }
  }

  /** The suffix loop keeps ids unique. */
  /** A channel is created only for a name that the category does not have at that
      moment, counting the channels the loop made before it. */
  lemma {:induction false} EnsureChannelsCreatesMissing(s: GuildState, parent: nat, names: seq<string>, ow: Overwrites)
    ensures var s' := EnsureChannels(s, parent, names, ow);
      forall j :: |s.channels| <= j < |s'.channels| ==> ChannelNamedIn(s'.channels[..j], parent, s'.channels[j].name).None?
    decreases |names|
  {
    if names != [] {
      var s1 := if ChannelNamedIn(s.channels, parent, names[0]).Some? then s else WithChannel(s, parent, names[0], ow);
      var s' := EnsureChannels(s1, parent, names[1..], ow);
      assert EnsureChannels(s, parent, names, ow) == s';
      EnsureChannelsCreatesMissing(s1, parent, names[1..], ow);
      EnsureChannelsPrefix(s1, parent, names[1..], ow);
      forall j | |s.channels| <= j < |s'.channels|
        ensures ChannelNamedIn(s'.channels[..j], parent, s'.channels[j].name).None?
      {
        if j < |s1.channels| {
          assert s1 != s && j == |s.channels|;
          assert s'.channels[..j] == s1.channels[..|s1.channels|][..j] == s.channels;
          assert s'.channels[j] == s1.channels[j];
        }
      }
    }
  }

  /** None of the channels the loop creates has a name the category already had. */
  lemma EnsureChannelsOnlyMissing(s: GuildState, parent: nat, names: seq<string>, ow: Overwrites)
    ensures var s' := EnsureChannels(s, parent, names, ow);
      forall j :: |s.channels| <= j < |s'.channels| ==> ChannelNamedIn(s.channels, parent, s'.channels[j].name).None?
  {
    var s' := EnsureChannels(s, parent, names, ow);
    EnsureChannelsCreatesMissing(s, parent, names, ow);
    EnsureChannelsPrefix(s, parent, names, ow);
    forall j | |s.channels| <= j < |s'.channels|
      ensures ChannelNamedIn(s.channels, parent, s'.channels[j].name).None?
    {
      assert s'.channels[..j][..|s.channels|] == s.channels;
      FirstNonePrefix(s'.channels[..j], |s.channels|, ChannelHasName(parent, s'.channels[j].name));
    }
  }

  lemma {:induction false} EnsureChannelsValid(s: GuildState, parent: nat, names: seq<string>, ow: Overwrites)
    requires ValidState(s)
    ensures ValidState(EnsureChannels(s, parent, names, ow))
    decreases |names|
  {
    if names != [] {
      var s1 := if ChannelNamedIn(s.channels, parent, names[0]).Some? then s else WithChannel(s, parent, names[0], ow);
      WithChannelValid(s, parent, names[0], ow);
      EnsureChannelsValid(s1, parent, names[1..], ow);
    }
  }

  /** After the suffix loop every name is present in the category. */
  lemma {:induction false} EnsureChannelsPresent(s: GuildState, parent: nat, names: seq<string>, ow: Overwrites)
    ensures forall n :: n in names ==> ChannelNamedIn(EnsureChannels(s, parent, names, ow).channels, parent, n).Some?
    decreases |names|
  {
    if names != [] {
      var s1 := if ChannelNamedIn(s.channels, parent, names[0]).Some? then s else WithChannel(s, parent, names[0], ow);
      EnsureChannelsPresent(s1, parent, names[1..], ow);
      FirstAppend(s.channels, [TextChannel(s.nextId, names[0], parent, ow)], ChannelHasName(parent, names[0]));
      assert ChannelNamedIn(s1.channels, parent, names[0]).Some?;
      EnsureChannelsKeepsFound(s1, parent, names[1..], ow, names[0]);
      var s' := EnsureChannels(s1, parent, names[1..], ow);
      forall n | n in names ensures ChannelNamedIn(s'.channels, parent, n).Some? {
        if n != names[0] {
          assert n in names[1..];
        }
      }
    }
  }

  /** A channel found before the suffix loop is still the one found after it. */
  lemma EnsureChannelsKeepsFound(s: GuildState, parent: nat, names: seq<string>, ow: Overwrites, n: string)
    requires ChannelNamedIn(s.channels, parent, n).Some?
    ensures ChannelNamedIn(EnsureChannels(s, parent, names, ow).channels, parent, n) == ChannelNamedIn(s.channels, parent, n)
  {
    EnsureChannelsPrefix(s, parent, names, ow);
    var s' := EnsureChannels(s, parent, names, ow);
    var added := s'.channels[|s.channels|..];
    assert s'.channels == s'.channels[..|s.channels|] + added;
    FirstAppend(s.channels, added, ChannelHasName(parent, n));
  }

  /** The suffix loop leaves the channels before it in place. */
  lemma {:induction false} EnsureChannelsPrefix(s: GuildState, parent: nat, names: seq<string>, ow: Overwrites)
    ensures var s' := EnsureChannels(s, parent, names, ow);
      |s.channels| <= |s'.channels| && s'.channels[..|s.channels|] == s.channels
    decreases |names|
  {
    if names != [] {
      var s1 := if ChannelNamedIn(s.channels, parent, names[0]).Some? then s else WithChannel(s, parent, names[0], ow);
      EnsureChannelsPrefix(s1, parent, names[1..], ow);
      var s' := EnsureChannels(s1, parent, names[1..], ow);
      assert s1.channels[..|s.channels|] == s.channels;
      assert s'.channels[..|s.channels|] == s'.channels[..|s1.channels|][..|s.channels|];
    }
  }

  /** When every name is already present, the suffix loop changes nothing. */
  lemma {:induction false} EnsureChannelsNoop(s: GuildState, parent: nat, names: seq<string>, ow: Overwrites)
    requires forall n :: n in names ==> ChannelNamedIn(s.channels, parent, n).Some?
    ensures EnsureChannels(s, parent, names, ow) == s
    decreases |names|
  {
    if names != [] {
      assert names[0] in names;
      forall n | n in names[1..] ensures ChannelNamedIn(s.channels, parent, n).Some? {
        assert n in names;
      }
      EnsureChannelsNoop(s, parent, names[1..], ow);
    }
  }

  /** A second identical call creates nothing and returns the same role. */
  lemma AddCourseIdempotent(s: GuildState, amc: Category, course: string)
    ensures var (s1, r1) := AddCourseSpec(s, amc, course);
      AddCourseSpec(s1, amc, course) == (s1, r1)
  {
    var name := AmcName(amc);
    if RoleNamed(s.roles, name).Some? {
      var amcRole := s.roles[RoleNamed(s.roles, name).value];
      var (sr, role) := EnsureRole(s, course);
      var (s2, cat) := EnsureCategory(sr, name, amcRole.id);
      var ow := ChannelOverwrites(amcRole.id, role.id);
      var s3 := EnsureChannels(s2, cat.id, ChannelNames(course), ow);
      EnsureRoleFacts(s, course);
      EnsureCategoryFacts(sr, name, amcRole.id);
      EnsureChannelsFrame(s2, cat.id, ChannelNames(course), ow);
      EnsureChannelsPresent(s2, cat.id, ChannelNames(course), ow);
      EnsureChannelsNoop(s3, cat.id, ChannelNames(course), ow);
      assert RoleNamed(s3.roles, name) == RoleNamed(s.roles, name);
      assert s3.roles[RoleNamed(s3.roles, name).value] == amcRole;
      assert EnsureRole(s3, course) == (s3, role);
      assert EnsureCategory(s3, name, amcRole.id) == (s3, cat);
      assert AddCourseSpec(s, amc, course) == (s3, Provisioned(role, []));
    }
  }

  /** `add_course` asserts that the category role exists, and otherwise creates
      the course role only when no role has the course's name, the category only
      when none has the category's name (with the category overwrites), and only
      channels named course.lower()+suffix inside that category (with the channel
      overwrites) and only for a name the category does not already have; every
      channel name then exists there, nothing is removed, and the returned
      channel list is empty. */
  lemma AddCourseEffects(s: GuildState, amc: Category, course: string)
    ensures var (s', r) := AddCourseSpec(s, amc, course);
      && (r.MissingAmcRole? <==> RoleNamed(s.roles, AmcName(amc)).None?)
      && (r.MissingAmcRole? ==> s' == s)
      && (r.Provisioned? ==>
            var amcRole := s.roles[RoleNamed(s.roles, AmcName(amc)).value];
            && r.channels == []
            && r.role.name == course
            && (RoleNamed(s.roles, course).Some? ==>
                  s'.roles == s.roles && r.role == s.roles[RoleNamed(s.roles, course).value])
            && (RoleNamed(s.roles, course).None? ==>
                  s'.roles == s.roles + [r.role] && r.role.id == s.nextId)
            && (CategoryNamed(s.categories, AmcName(amc)).Some? ==> s'.categories == s.categories)
            && (CategoryNamed(s.categories, AmcName(amc)).None? ==>
                  |s'.categories| == |s.categories| + 1 && s'.categories[..|s.categories|] == s.categories
                  && s'.categories[|s.categories|].name == AmcName(amc)
                  && s'.categories[|s.categories|].overwrites == CategoryOverwrites(amcRole.id))
            && CategoryNamed(s'.categories, AmcName(amc)).Some?
            && var cat := s'.categories[CategoryNamed(s'.categories, AmcName(amc)).value];
            && |s.channels| <= |s'.channels| && s'.channels[..|s.channels|] == s.channels
            && (forall j :: |s.channels| <= j < |s'.channels| ==>
                  && s'.channels[j].parent == cat.id
                  && s'.channels[j].name in ChannelNames(course)
                  && s'.channels[j].overwrites == ChannelOverwrites(amcRole.id, r.role.id)
                  && ChannelNamedIn(s.channels, cat.id, s'.channels[j].name).None?)
            && (forall n :: n in ChannelNames(course) ==> ChannelNamedIn(s'.channels, cat.id, n).Some?))
  {
    var name := AmcName(amc);
    if RoleNamed(s.roles, name).Some? {
      var amcRole := s.roles[RoleNamed(s.roles, name).value];
      var (sr, role) := EnsureRole(s, course);
      var (s2, cat) := EnsureCategory(sr, name, amcRole.id);
      var ow := ChannelOverwrites(amcRole.id, role.id);
      EnsureRoleFacts(s, course);
      EnsureCategoryFacts(sr, name, amcRole.id);
      EnsureChannelsFrame(s2, cat.id, ChannelNames(course), ow);
      EnsureChannelsPresent(s2, cat.id, ChannelNames(course), ow);
      EnsureChannelsOnlyMissing(s2, cat.id, ChannelNames(course), ow);
      assert EnsureCategory(s2, name, amcRole.id) == (s2, cat);
    }
  }

  /** What `/course_role` and the level menus rely on: the assert fails exactly
      when the AMC role is missing, and then nothing changes; otherwise the
      returned role is the first one named after the course. */
  lemma AddCourseRole(s: GuildState, amc: Category, course: string)
    ensures var (s', r) := AddCourseSpec(s, amc, course);
      && (r.MissingAmcRole? <==> RoleNamed(s.roles, AmcName(amc)).None?)
      && (r.MissingAmcRole? ==> s' == s)
      && (r.Provisioned? ==>
            RoleNamed(s'.roles, course).Some? && s'.roles[RoleNamed(s'.roles, course).value] == r.role)
  {
    var name := AmcName(amc);
    if RoleNamed(s.roles, name).Some? {
      var amcRole := s.roles[RoleNamed(s.roles, name).value];
      var (sr, role) := EnsureRole(s, course);
      var (s2, cat) := EnsureCategory(sr, name, amcRole.id);
      EnsureRoleFacts(s, course);
      EnsureCategoryFacts(sr, name, amcRole.id);
      EnsureChannelsFrame(s2, cat.id, ChannelNames(course), ChannelOverwrites(amcRole.id, role.id));
      assert RoleNamed(sr.roles, course).Some? && sr.roles[RoleNamed(sr.roles, course).value] == role;
    }
  }

  /** `add_course` keeps ids unique and below the next id. */
  lemma AddCourseValid(s: GuildState, amc: Category, course: string)
    requires ValidState(s)
    ensures var (s', r) := AddCourseSpec(s, amc, course); ValidState(s')
  {
    var name := AmcName(amc);
    if RoleNamed(s.roles, name).Some? {
      var amcRole := s.roles[RoleNamed(s.roles, name).value];
      var (sr, role) := EnsureRole(s, course);
      var (s2, cat) := EnsureCategory(sr, name, amcRole.id);
      EnsureRoleFacts(s, course);
      EnsureCategoryFacts(sr, name, amcRole.id);
      EnsureChannelsValid(s2, cat.id, ChannelNames(course), ChannelOverwrites(amcRole.id, role.id));
    }
  }
}
