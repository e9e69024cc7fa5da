/** The `/course_role` command: fuzzy autocompletion of course codes and the
    toggle of a course role, provisioning the course on first use. */
module SelfRole {
  import opened Utils
  import opened Builtins
  import opened Guilds
  import opened CourseCreation

  // ---------------------------------------------------------------------------
  // `indexes_of(search, value)`

  /** The greedy continuation of a match: each character of `rest` found with
      `value.find(c, last)`, from the index of the previous one. */
  function MatchFrom(rest: string, value: string, last: nat): Option<seq<int>>
    decreases |rest|
  {
    if rest == [] then Some([])
    else
      var k := Find(value, rest[0], last);
      if k == -1 then None
      else match MatchFrom(rest[1..], value, k)
        case None => None
        case Some(t) => Some([k] + t)
  }

  /** What `indexes_of` returns: the greedy indexes, or [] when the search is
      empty or some character is not found. */
  function IndexesSpec(search: string, value: string): seq<int>
  {
    if search == [] then []
    else
      var f := Find(value, search[0], 0);
      if f == -1 then []
      else match MatchFrom(search[1..], value, f)
        case None => []
        case Some(t) => [f] + t
  }

  /** `idx` places each character of `search` on an equal character of
      `value`, at non-decreasing positions. `str.find(c, start)` includes
      `start`, so one position of `value` may serve consecutive equal characters. */
  ghost predicate Embeds(search: string, value: string, idx: seq<int>)
  {
    && |idx| == |search|
    && (forall k :: 0 <= k < |idx| ==> 0 <= idx[k] < |value| && value[idx[k]] == search[k])
    && (forall k :: 0 <= k < |idx| - 1 ==> idx[k] <= idx[k + 1])
  }

  /** No position in `lo..hi` holds `c` (and all of them are in `value`). */
  ghost predicate Gap(value: string, c: char, lo: int, hi: int)
  {
    forall j :: lo <= j < hi ==> 0 <= j < |value| && value[j] != c
  }

  /** The position a search for index `k` starts from. */
  function Prev(start: int, idx: seq<int>, k: nat): int
    requires k < |idx|
  {
    if k == 0 then start else idx[k - 1]
  }

  /** Each index is the first occurrence of its character at or after the
      previous index (at or after `start` for the first one). */
  ghost predicate Leftmost(search: string, value: string, start: int, idx: seq<int>)
    requires |idx| == |search|
  {
    forall k :: 0 <= k < |idx| ==> Prev(start, idx, k) <= idx[k] && Gap(value, search[k], Prev(start, idx, k), idx[k])
  }

  /** Extending an embedding of `rest[1..]` that starts at or after `k` by a
      position `k` holding `rest[0]`. */
  lemma EmbedsCons(rest: string, value: string, k: int, t: seq<int>)
    requires rest != [] && 0 <= k < |value| && value[k] == rest[0]
    requires Embeds(rest[1..], value, t) && (|t| > 0 ==> k <= t[0])
    ensures Embeds(rest, value, [k] + t)
  {
    var idx := [k] + t;
    forall i | 0 <= i < |idx| ensures 0 <= idx[i] < |value| && value[idx[i]] == rest[i] {
      if i > 0 {
        assert idx[i] == t[i - 1] && rest[i] == rest[1..][i - 1];
      }
    }
    forall i | 0 <= i < |idx| - 1 ensures idx[i] <= idx[i + 1] {
      if i > 0 {
        assert idx[i] == t[i - 1] && idx[i + 1] == t[i];
      }
    }
  }

  /** Extending a leftmost embedding of `rest[1..]` from `k` by the first
      occurrence `k` of `rest[0]` at or after `start`. */
  lemma LeftmostCons(rest: string, value: string, start: int, k: int, t: seq<int>)
    requires rest != [] && |t| == |rest| - 1 && start <= k
    requires Gap(value, rest[0], start, k)
    requires Leftmost(rest[1..], value, k, t)
    ensures Leftmost(rest, value, start, [k] + t)
  {
    var idx := [k] + t;
    forall i | 0 < i < |idx|
      ensures Prev(start, idx, i) <= idx[i] && Gap(value, rest[i], Prev(start, idx, i), idx[i])
    {
      assert idx[i] == t[i - 1] && rest[i] == rest[1..][i - 1];
      assert Prev(start, idx, i) == Prev(k, t, i - 1);
    }
    assert Prev(start, idx, 0) == start && idx[0] == k;
  }

  lemma {:induction false} MatchFromSound(rest: string, value: string, last: nat)
    ensures var m := MatchFrom(rest, value, last);
      m.Some? ==> Embeds(rest, value, m.value) && Leftmost(rest, value, last, m.value)
    decreases |rest|
  {
    if rest != [] {
      var k := Find(value, rest[0], last);
      if k != -1 {
        MatchFromSound(rest[1..], value, k);
        var m := MatchFrom(rest[1..], value, k);
        if m.Some? {
          EmbedsCons(rest, value, k, m.value);
          LeftmostCons(rest, value, last, k, m.value);
        }
      }
    }
  }

  /** Dropping the first position of an embedding. */
  lemma EmbedsTail(rest: string, value: string, idx: seq<int>)
    requires rest != [] && Embeds(rest, value, idx)
    ensures Embeds(rest[1..], value, idx[1..])
  {
    assert forall i :: 0 <= i < |idx[1..]| ==> idx[1..][i] == idx[i + 1] && rest[1..][i] == rest[i + 1];
  }

  lemma {:induction false} MatchFromComplete(rest: string, value: string, last: nat, idx: seq<int>)
    requires Embeds(rest, value, idx)
    requires |idx| > 0 ==> idx[0] >= last
    ensures MatchFrom(rest, value, last).Some?
    decreases |rest|
  {
    if rest != [] {
      var k := Find(value, rest[0], last);
      assert value[idx[0]] == rest[0];
      assert k != -1 && k <= idx[0];
      EmbedsTail(rest, value, idx);
      MatchFromComplete(rest[1..], value, k, idx[1..]);
    }
  }

  /** `indexes_of` matches exactly when the search is non-empty and embeds in
      the value, and then it returns the greedy leftmost embedding. */
  lemma IndexesOfMatches(search: string, value: string)
    ensures IndexesSpec(search, value) != [] <==> search != [] && exists idx :: Embeds(search, value, idx)
    ensures IndexesSpec(search, value) != [] ==>
      Embeds(search, value, IndexesSpec(search, value)) && Leftmost(search, value, 0, IndexesSpec(search, value))
  {
    if search != [] {
      var f := Find(value, search[0], 0);
      var r := IndexesSpec(search, value);
      if r != [] {
        MatchFromSound(search[1..], value, f);
        var t := MatchFrom(search[1..], value, f).value;
        EmbedsCons(search, value, f, t);
        LeftmostCons(search, value, 0, f, t);
        assert Embeds(search, value, r);
      }
      if idx :| Embeds(search, value, idx) {
        assert value[idx[0]] == search[0];
        assert f != -1 && f <= idx[0];
        EmbedsTail(search, value, idx);
        MatchFromComplete(search[1..], value, f, idx[1..]);
      }
    }
  }

  /** One step of the greedy match, for working examples. */
  lemma MatchFromCons(rest: string, value: string, last: nat, k: nat, t: seq<int>)
    requires rest != [] && Find(value, rest[0], last) == k && MatchFrom(rest[1..], value, k) == Some(t)
    ensures MatchFrom(rest, value, last) == Some([k] + t)
  {
  }

  /** Where `find` lands for the letters of "sdmsg" in "send_message". */
  lemma SendMessageFinds(v: string)
    requires v == "send_message"
    ensures Find(v, 's', 0) == 0 && Find(v, 'd', 0) == 3 && Find(v, 'm', 3) == 5
    ensures Find(v, 's', 5) == 7 && Find(v, 'g', 7) == 10
  {
    assert v[0] == 's' && v[3] == 'd' && v[5] == 'm' && v[7] == 's' && v[10] == 'g';
  }

  /** The docstring's first example: "sdmsg" in "send_message" at [0, 3, 5, 7, 10]. */
  lemma IndexesOfExampleSdmsg()
    ensures IndexesSpec("sdmsg", "send_message") == [0, 3, 5, 7, 10]
  {
    var v := "send_message";
    SendMessageFinds(v);
    assert "sdmsg"[1..] == "dmsg" && "dmsg"[1..] == "msg" && "msg"[1..] == "sg" && "sg"[1..] == "g" && "g"[1..] == "";
    MatchFromCons("g", v, 7, 10, []);
    assert [10] + [] == [10] && [7] + [10] == [7, 10] && [5] + [7, 10] == [5, 7, 10] && [3] + [5, 7, 10] == [3, 5, 7, 10];
    MatchFromCons("sg", v, 5, 7, [10]);
    MatchFromCons("msg", v, 3, 5, [7, 10]);
    MatchFromCons("dmsg", v, 0, 3, [5, 7, 10]);
  }

  /** The docstring's second example: "sen" in "send_message" at [0, 1, 2]. */
  lemma IndexesOfExampleSen()
    ensures IndexesSpec("sen", "send_message") == [0, 1, 2]
  {
    var v := "send_message";
    assert "sen"[1..] == "en" && "en"[1..] == "n" && "n"[1..] == "";
    MatchFromCons("n", v, 1, 2, []);
    assert [2] + [] == [2] && [1] + [2] == [1, 2];
    MatchFromCons("en", v, 0, 1, [2]);
  }

  /** The docstring's third example: there is no 'o' in "send_message". */
  lemma IndexesOfExampleOdmsg()
    ensures IndexesSpec("odmsg", "send_message") == []
  {
    var v := "send_message";
    assert Find(v, 'o', 0) == -1;
  }

  /** The docstring's fourth example: "sgm" is out of order in "send_message". */
  lemma IndexesOfExampleSgm()
    ensures IndexesSpec("sgm", "send_message") == []
  {
    var v := "send_message";
    assert Find(v, 'm', 10) == -1;
    assert Find(v, 'g', 0) == 10;
    assert MatchFrom("gm", v, 0) == None;
  }

  /** `find` includes its start, so a doubled letter can match one position twice. */
  lemma IndexesOfExampleRepeat()
    ensures IndexesSpec("ss", "s") == [0, 0]
  {
    assert "ss"[1..] == "s" && "s"[1..] == "";
    MatchFromCons("s", "s", 0, 0, []);
  }

  /** `indexes_of`. */
  method IndexesOf(search: string, value: string) returns (indexes: seq<int>)
    ensures indexes == IndexesSpec(search, value)
  {
    if search == [] {
      return [];
    }
    var first := Find(value, search[0], 0);
    if first == -1 {
      return [];
    }
    indexes := [first];
    var i := 1;
    while i < |search|
      invariant 1 <= i <= |search|
      invariant |indexes| == i && indexes[i - 1] >= 0
      invariant IndexesSpec(search, value) ==
        match MatchFrom(search[i..], value, indexes[i - 1]) case None => [] case Some(t) => indexes + t
    {
      var c := search[i];
      assert search[i..][0] == c && search[i..][1..] == search[i + 1..];
      var newIndex := Find(value, c, indexes[i - 1]);
      if newIndex == -1 {
        return [];
      }
      indexes := indexes + [newIndex];
      i := i + 1;
    }
    assert search[i..] == [];
    assert indexes + [] == indexes;
  }

  // ---------------------------------------------------------------------------
  // The flattened course list

  function LevelCourses(levels: seq<Bucket>): seq<string>
  {
    if levels == [] then [] else levels[0].courses + LevelCourses(levels[1..])
  }

  /** Every course of every level of every category, in COURSES order. */
  function AllCourses(cs: seq<Entry>): seq<string>
  {
    if cs == [] then [] else LevelCourses(cs[0].levels) + AllCourses(cs[1..])
  }

  lemma {:induction false} LevelCoursesMembers(levels: seq<Bucket>, course: string)
    ensures course in LevelCourses(levels) <==> exists k :: 0 <= k < |levels| && course in levels[k].courses
  {
    if levels != [] {
      LevelCoursesMembers(levels[1..], course);
      assert forall k :: 1 <= k < |levels| ==> levels[k] == levels[1..][k - 1];
      if course in LevelCourses(levels[1..]) {
        var k :| 0 <= k < |levels[1..]| && course in levels[1..][k].courses;
        assert course in levels[k + 1].courses;
      }
    }
  }

  /** A course is in the flattened list exactly when `course_amc` finds a category for it. */
  lemma {:induction false} AllCoursesAmc(cs: seq<Entry>, course: string)
    ensures course in AllCourses(cs) <==> CourseAmc(cs, course).Some?
  {
    if cs != [] {
      AllCoursesAmc(cs[1..], course);
      LevelCoursesMembers(cs[0].levels, course);
      assert forall i :: 1 <= i < |cs| ==> cs[i] == cs[1..][i - 1];
      if CourseAmc(cs[1..], course).Some? {
        var i :| 0 <= i < |cs[1..]| && InEntry(cs[1..][i], course);
        assert InEntry(cs[i + 1], course);
      }
    }
  }

  // ---------------------------------------------------------------------------
  // `course_complete`

  /** Discord accepts at most 25 autocomplete choices. */
  const MAX_CHOICES := 25

  /** A course is offered when the query is empty or matches it. */
  predicate Accepts(query: string, course: string)
  {
    query == "" || IndexesSpec(query, course) != []
  }

  /** The collection loop: courses in order, each at most once, stopping at 25. */
  function Collect(courses: seq<string>, query: string): seq<string>
  {
    if courses == [] then []
    else
      var c := Collect(courses[..|courses| - 1], query);
      var x := courses[|courses| - 1];
      if |c| == MAX_CHOICES || x in c || !Accepts(query, x) then c else c + [x]
  }

  /** The sort key `(indexes_of(value, choice), choice)`, compared as Python
      compares tuples: by the index lists, then by the strings. */
  predicate KeyLe(ia: seq<int>, a: string, ib: seq<int>, b: string)
  {
    (IntsLe(ia, ib) && ia != ib) || (ia == ib && StrLe(a, b))
  }

  function ChoiceLe(query: string): (string, string) -> bool
  {
    (a: string, b: string) => KeyLe(IndexesSpec(query, a), a, IndexesSpec(query, b), b)
  }

  /** The choices `course_complete` returns for input `value`. */
  function CompleteSpec(cs: seq<Entry>, value: string): seq<string>
  {
    SortBy(Collect(AllCourses(cs), Upper(value)), ChoiceLe(Upper(value)))
  }

  /** `course_complete`. */
  method CourseComplete(cs: seq<Entry>, value: string) returns (choices: seq<string>)
    ensures choices == CompleteSpec(cs, value)
  {
    var query := Upper(value);
    var courses := AllCourses(cs);
    var picked: seq<string> := [];
    var i := 0;
    while i < |courses|
      invariant 0 <= i <= |courses|
      invariant picked == Collect(courses[..i], query)
      invariant |picked| < MAX_CHOICES
    {
      var course := courses[i];
      assert courses[..i + 1][..i] == courses[..i];
      if course !in picked {
        var matched := [];
        if query != "" {
          matched := IndexesOf(query, course);
        }
        if query == "" || matched != [] {
          picked := picked + [course];
        }
        if |picked| == MAX_CHOICES {
          CollectPrefix(courses, i + 1, query);
          break;
        }
      }
      i := i + 1;
    }
    assert picked == Collect(courses, query) by {
      if |picked| < MAX_CHOICES {
        assert courses[..i] == courses;
      }
    }
    choices := SortBy(picked, ChoiceLe(query));
  }

  lemma {:induction false} CollectFacts(courses: seq<string>, query: string)
    ensures |Collect(courses, query)| <= MAX_CHOICES
    ensures forall i, j :: 0 <= i < j < |Collect(courses, query)| ==> Collect(courses, query)[i] != Collect(courses, query)[j]
    ensures forall x :: x in Collect(courses, query) ==> x in courses && Accepts(query, x)
  {
    if courses != [] {
      var init := courses[..|courses| - 1];
      CollectFacts(init, query);
      assert forall x :: x in init ==> x in courses;
    }
  }

  /** An earlier collection is a prefix of a later one, and once 25 choices
      are collected nothing more is. */
  lemma {:induction false} CollectPrefix(courses: seq<string>, n: nat, query: string)
    requires n <= |courses|
    ensures var p := Collect(courses[..n], query);
      |p| <= |Collect(courses, query)| && Collect(courses, query)[..|p|] == p
      && (|p| == MAX_CHOICES ==> Collect(courses, query) == p)
    decreases |courses| - n
  {
    if n == |courses| {
      assert courses[..n] == courses;
    } else {
      var init := courses[..|courses| - 1];
      assert init[..n] == courses[..n];
      CollectPrefix(init, n, query);
      var p := Collect(courses[..n], query);
      var c := Collect(init, query);
      assert Collect(courses, query)[..|c|] == c;
      assert Collect(courses, query)[..|p|] == c[..|p|];
    }
  }

  /** An accepted course is left out only when the 25 choices were all
      collected before its position. */
  lemma CollectFirst(courses: seq<string>, n: nat, query: string)
    requires n < |courses| && Accepts(query, courses[n]) && courses[n] !in Collect(courses, query)
    ensures |Collect(courses, query)| == MAX_CHOICES
    ensures Collect(courses, query) == Collect(courses[..n], query)
  {
    var p := Collect(courses[..n], query);
    assert courses[..n + 1][..n] == courses[..n];
    CollectPrefix(courses, n + 1, query);
    CollectPrefix(courses, n, query);
    var q := Collect(courses[..n + 1], query);
  }

  /** With fewer than 25 choices, every accepted course is offered. */
  lemma CollectAllWhenFew(courses: seq<string>, query: string)
    requires |Collect(courses, query)| < MAX_CHOICES
    ensures forall x :: x in courses && Accepts(query, x) ==> x in Collect(courses, query)
  {
    forall x | x in courses && Accepts(query, x) ensures x in Collect(courses, query) {
      var n :| 0 <= n < |courses| && courses[n] == x;
      if x !in Collect(courses, query) {
        CollectFirst(courses, n, query);
      }
    }
  }

  lemma ChoiceLeTotalPreorder(query: string)
    ensures TotalPreorder(ChoiceLe(query))
  {
    var le := ChoiceLe(query);
    StrLeTotalPreorder();
    forall a, b ensures le(a, b) || le(b, a) {
      IntsLeTotal(IndexesSpec(query, a), IndexesSpec(query, b));
    }
    forall a, b, c | le(a, b) && le(b, c) ensures le(a, c) {
      var ia, ib, ic := IndexesSpec(query, a), IndexesSpec(query, b), IndexesSpec(query, c);
      if ia != ib && ib != ic {
        IntsLeTrans(ia, ib, ic);
        if ia == ic {
          IntsLeAntisym(ia, ib);
        }
      }
    }
  }

  /** The choices are the collected courses (each listed, each accepted, no
      repeats, at most 25), ordered by closeness of match and then by text. */
  lemma CourseCompleteCorrect(cs: seq<Entry>, value: string)
    ensures var r := CompleteSpec(cs, value);
      var collected := Collect(AllCourses(cs), Upper(value));
      && SortedBy(r, ChoiceLe(Upper(value)))
      && multiset(r) == multiset(collected)
      && |r| <= MAX_CHOICES
      && (forall x :: x in r ==> x in AllCourses(cs) && Accepts(Upper(value), x))
      && (|r| < MAX_CHOICES ==> forall x :: x in AllCourses(cs) && Accepts(Upper(value), x) ==> x in r)
  {
    var query := Upper(value);
    var collected := Collect(AllCourses(cs), query);
    var r := CompleteSpec(cs, value);
    ChoiceLeTotalPreorder(query);
    SortByCorrect(collected, ChoiceLe(query));
    CollectFacts(AllCourses(cs), query);
    assert |r| == |multiset(r)| == |multiset(collected)| == |collected|;
    assert forall x :: x in r <==> x in multiset(r);
    assert forall x :: x in collected <==> x in multiset(collected);
    if |r| < MAX_CHOICES {
      CollectAllWhenFew(AllCourses(cs), query);
    }
  }

  /** With an empty input, every course is accepted and the choices come out
      in plain string order. */
  lemma EmptyInputSorted(cs: seq<Entry>)
    ensures SortedBy(CompleteSpec(cs, ""), StrLe)
  {
    var r := CompleteSpec(cs, "");
    assert Upper("") == "";
    ChoiceLeTotalPreorder("");
    SortByCorrect(Collect(AllCourses(cs), ""), ChoiceLe(""));
    forall i, j | 0 <= i < j < |r| ensures StrLe(r[i], r[j]) {
      assert ChoiceLe("")(r[i], r[j]);
    }
  }

  // ---------------------------------------------------------------------------
  // `SelfRole.course_role`

  /** The outcome of `/course_role`: the "No such course" error, the
      `AssertionError` of `add_course` when the category role is missing, or
      the removed or given role. */
  datatype RoleReply = NoSuchCourse | AmcRoleMissing | Removed(roleId: nat) | Given(roleId: nat)

  function ToggleReply(held: set<nat>, roleId: nat): RoleReply
  {
    if roleId in held then Removed(roleId) else Given(roleId)
  }

  /** `course_role` on guild values and the member's role set. */
  function CourseRoleSpec(s: GuildState, held: set<nat>, cs: seq<Entry>, course: string): (GuildState, set<nat>, RoleReply)
  {
    match RoleNamed(s.roles, course)
    case Some(ri) => (s, Toggled(held, s.roles[ri].id), ToggleReply(held, s.roles[ri].id))
    case None =>
      match CourseAmc(cs, course)
      case None => (s, held, NoSuchCourse)
      case Some(amc) =>
        var (s1, r) := AddCourseSpec(s, amc, course);
        match r
        case MissingAmcRole => (s1, held, AmcRoleMissing)
        case Provisioned(role, _) => (s1, Toggled(held, role.id), ToggleReply(held, role.id))
  }

  /** `SelfRole.course_role`. */
  method CourseRole(g: Guild, member: Member, cs: seq<Entry>, course: string) returns (reply: RoleReply)
    modifies g, member
    ensures (g.State(), member.roles, reply) == CourseRoleSpec(old(g.State()), old(member.roles), cs, course)
  {
    var role: Role;
    var ri := RoleNamed(g.roles, course);
    if ri.None? {
      var courses := AllCourses(cs);
      AllCoursesAmc(cs, course);
      if course !in courses {
        return NoSuchCourse;
      }
      var amc := CourseAmc(cs, course);
      var r := AddCourse(g, amc.value, course);
      if r.MissingAmcRole? {
        return AmcRoleMissing;
      }
      role := r.role;
    } else {
      role := g.roles[ri.value];
    }
    var removed := member.Toggle(role.id);
    if removed {
      reply := Removed(role.id);
    } else {
      reply := Given(role.id);
    }
  }

  /** A course nobody has a role for and nobody lists is refused; a refusal
      or a missing category role changes nothing. */
  lemma CourseRoleRefusals(s: GuildState, held: set<nat>, cs: seq<Entry>, course: string)
    ensures var (s', held', reply) := CourseRoleSpec(s, held, cs, course);
      && (reply == NoSuchCourse <==> RoleNamed(s.roles, course).None? && course !in AllCourses(cs))
      && (reply == NoSuchCourse || reply == AmcRoleMissing ==> s' == s && held' == held)
  {
    AllCoursesAmc(cs, course);
    if RoleNamed(s.roles, course).None? && CourseAmc(cs, course).Some? {
      AddCourseRole(s, CourseAmc(cs, course).value, course);
    }
  }

  /** `/course_role` keeps ids unique and below the next id. */
  lemma CourseRoleValid(s: GuildState, held: set<nat>, cs: seq<Entry>, course: string)
    requires ValidState(s)
    ensures var (s', held', reply) := CourseRoleSpec(s, held, cs, course); ValidState(s')
  {
    if RoleNamed(s.roles, course).None? && CourseAmc(cs, course).Some? {
      AddCourseValid(s, CourseAmc(cs, course).value, course);
    }
  }

  /** The member's role set is toggled on the role named after the course,
      which exists afterwards; a guild that had the role is left as it was. */
  lemma CourseRoleToggles(s: GuildState, held: set<nat>, cs: seq<Entry>, course: string)
    ensures var (s', held', reply) := CourseRoleSpec(s, held, cs, course);
      && (RoleNamed(s.roles, course).Some? ==> s' == s && reply.roleId == s.roles[RoleNamed(s.roles, course).value].id)
      && (reply.Removed? || reply.Given? ==>
            && held' == Toggled(held, reply.roleId)
            && (reply.Removed? <==> reply.roleId in held)
            && RoleNamed(s'.roles, course).Some?
            && s'.roles[RoleNamed(s'.roles, course).value].id == reply.roleId)
  {
    if RoleNamed(s.roles, course).None? && CourseAmc(cs, course).Some? {
      AddCourseRole(s, CourseAmc(cs, course).value, course);
    }
  }

  /** Running the command twice gives the member's roles back and changes the
      guild no further: the second run finds the role the first one toggled. */
  lemma CourseRoleTwice(s: GuildState, held: set<nat>, cs: seq<Entry>, course: string)
    ensures var (s1, held1, reply1) := CourseRoleSpec(s, held, cs, course);
      reply1.Removed? || reply1.Given? ==>
        var (s2, held2, reply2) := CourseRoleSpec(s1, held1, cs, course);
        && s2 == s1 && held2 == held
        && reply2 == (if reply1.Given? then Removed(reply1.roleId) else Given(reply1.roleId))
  {
    CourseRoleToggles(s, held, cs, course);
    var (s1, held1, reply1) := CourseRoleSpec(s, held, cs, course);
    if reply1.Removed? || reply1.Given? {
      var id := reply1.roleId;
      CourseRoleFound(s1, held1, cs, course);
      assert Toggled(Toggled(held, id), id) == held;
    }
  }

  /** With the role present, the command only toggles it. */
  lemma CourseRoleFound(s: GuildState, held: set<nat>, cs: seq<Entry>, course: string)
    requires RoleNamed(s.roles, course).Some?
    ensures var id := s.roles[RoleNamed(s.roles, course).value].id;
      CourseRoleSpec(s, held, cs, course) == (s, Toggled(held, id), ToggleReply(held, id))
  {
  }
}
