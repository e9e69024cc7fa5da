/** The role-picker message: the per-level course dropdowns of a category,
    the toggle behind a dropdown choice, and re-attaching the picker to the
    messages recorded in messages.json at startup. */
module RoleAssignment {
  import opened Utils
  import opened Builtins
  import opened Guilds
  import opened CourseCreation

  // ---------------------------------------------------------------------------
  // `LevelView.__init__`

  /** A `CourseSelect`: one dropdown of a category's courses at one level. */
  datatype Select = Select(category: Category, level: Level, placeholder: string, options: seq<string>)

  function Placeholder(level: Level): string
  {
    IntToString(level) + "-level courses"
  }

  /** `COURSES[category][level]` on the defaultdict: [] for a level without a list. */
  function CoursesAt(levels: seq<Bucket>, level: Level): seq<string>
  {
    match First(levels, (b: Bucket) => b.level == level)
    case None => []
    case Some(i) => levels[i].courses
  }

  /** One dropdown per listed level whose course list is non-empty, in the order listed. */
  function SelectsFor(category: Category, levels: seq<Bucket>, lvs: seq<Level>): seq<Select>
  {
    if lvs == [] then []
    else
      var init := SelectsFor(category, levels, lvs[..|lvs| - 1]);
      var lv := lvs[|lvs| - 1];
      var courses := CoursesAt(levels, lv);
      if courses != [] then init + [Select(category, lv, Placeholder(lv), courses)] else init
  }

  /** The dropdowns of `LevelView(category=...)`; None is the `KeyError` of a
      category that was never loaded. */
  function LevelViewSpec(cs: seq<Entry>, category: Category): Option<seq<Select>>
  {
    match Lookup(cs, category)
    case None => None
    case Some(levels) => Some(SelectsFor(category, levels, LEVELS))
  }

  /** `LevelView.__init__`. */
  method LevelView(cs: seq<Entry>, category: Category) returns (view: Option<seq<Select>>)
    ensures view == LevelViewSpec(cs, category)
  {
    var found := Lookup(cs, category);
    if found.None? {
      return None;
    }
    var items := AddSelects(category, found.value, LEVELS);
    return Some(items);
  }

  /** The loop of `LevelView.__init__`: one dropdown per level in `lvs` that has courses. */
  method AddSelects(category: Category, levels: seq<Bucket>, lvs: seq<Level>) returns (items: seq<Select>)
    ensures items == SelectsFor(category, levels, lvs)
  {
    items := [];
    var i := 0;
    while i < |lvs|
      invariant 0 <= i <= |lvs|
      invariant items == SelectsFor(category, levels, lvs[..i])
    {
      var lv := lvs[i];
      ghost var upto := lvs[..i + 1];
      assert upto[..|upto| - 1] == lvs[..i] && upto[|upto| - 1] == lv;
      SelectsForLast(category, levels, upto);
      var courses := CoursesAt(levels, lv);
      if courses != [] {
        items := items + [Select(category, lv, Placeholder(lv), courses)];
      }
      assert items == SelectsFor(category, levels, upto);
      i := i + 1;
    }
    assert lvs[..i] == lvs;
  }

  /** The last listed level adds its dropdown when it has courses. */
  lemma SelectsForLast(category: Category, levels: seq<Bucket>, lvs: seq<Level>)
    requires lvs != []
    ensures var lv := lvs[|lvs| - 1];
      var r0 := SelectsFor(category, levels, lvs[..|lvs| - 1]);
      && lvs == lvs[..|lvs| - 1] + [lv]
      && SelectsFor(category, levels, lvs) ==
           if CoursesAt(levels, lv) != [] then r0 + [Select(category, lv, Placeholder(lv), CoursesAt(levels, lv))] else r0
  {
  }

  /** Each dropdown is for a listed level with courses, and offers them. */
  lemma {:induction false} SelectsForShape(category: Category, levels: seq<Bucket>, lvs: seq<Level>)
    ensures var r := SelectsFor(category, levels, lvs);
      forall k :: 0 <= k < |r| ==>
        && r[k].level in lvs && r[k].category == category
        && r[k].options == CoursesAt(levels, r[k].level) && r[k].options != []
        && r[k].placeholder == Placeholder(r[k].level)
  {
    if lvs != [] {
      var init := lvs[..|lvs| - 1];
      SelectsForShape(category, levels, init);
      SelectsForLast(category, levels, lvs);
      var r0 := SelectsFor(category, levels, init);
      var r := SelectsFor(category, levels, lvs);
      forall k | 0 <= k < |r| ensures r[k].level in lvs {
        if k < |r0| {
          assert r[k] == r0[k];
          assert r0[k].level in init;
        }
      }
    }
  }

  /** Dropdowns follow the order of increasing listed levels. */
  lemma {:induction false} SelectsForOrdered(category: Category, levels: seq<Bucket>, lvs: seq<Level>)
    requires forall i, j :: 0 <= i < j < |lvs| ==> lvs[i] < lvs[j]
    ensures var r := SelectsFor(category, levels, lvs);
      forall k :: 0 <= k < |r| - 1 ==> r[k].level < r[k + 1].level
  {
    if lvs != [] {
      var init := lvs[..|lvs| - 1];
      var lv := lvs[|lvs| - 1];
      SelectsForOrdered(category, levels, init);
      SelectsForShape(category, levels, init);
      SelectsForLast(category, levels, lvs);
      var r0 := SelectsFor(category, levels, init);
      var r := SelectsFor(category, levels, lvs);
      forall k | 0 <= k < |r0| ensures r0[k].level < lv {
        assert r0[k].level in init;
        var i :| 0 <= i < |init| && init[i] == r0[k].level;
        assert lvs[i] == init[i];
      }
      forall k | 0 <= k < |r| - 1 ensures r[k].level < r[k + 1].level {
        assert r[k] == r0[k];
        if k + 1 < |r0| {
          assert r[k + 1] == r0[k + 1];
        }
      }
    }
  }

  /** Every listed level with courses has a dropdown. */
  lemma {:induction false} SelectsForCovers(category: Category, levels: seq<Bucket>, lvs: seq<Level>)
    ensures var r := SelectsFor(category, levels, lvs);
      forall l :: l in lvs && CoursesAt(levels, l) != [] ==> exists k :: 0 <= k < |r| && r[k].level == l
  {
    if lvs != [] {
      var init := lvs[..|lvs| - 1];
      var lv := lvs[|lvs| - 1];
      SelectsForCovers(category, levels, init);
      SelectsForLast(category, levels, lvs);
      var r0 := SelectsFor(category, levels, init);
      var r := SelectsFor(category, levels, lvs);
      forall l | l in lvs && CoursesAt(levels, l) != [] ensures exists k :: 0 <= k < |r| && r[k].level == l {
        if l != lv {
          assert l in init;
          var k :| 0 <= k < |r0| && r0[k].level == l;
          assert r[k] == r0[k];
        } else {
          assert r[|r0|].level == l;
        }
      }
    }
  }

  /** The view has a dropdown for exactly the levels with courses, in
      increasing level order, each offering that level's courses. */
  lemma LevelViewCorrect(cs: seq<Entry>, category: Category)
    ensures LevelViewSpec(cs, category).None? <==> Lookup(cs, category).None?
    ensures match LevelViewSpec(cs, category)
      case None => true
      case Some(r) =>
        var levels := Lookup(cs, category).value;
        && (forall k :: 0 <= k < |r| ==>
              && r[k].category == category
              && r[k].options == CoursesAt(levels, r[k].level) && r[k].options != []
              && r[k].placeholder == Placeholder(r[k].level))
        && (forall k :: 0 <= k < |r| - 1 ==> r[k].level < r[k + 1].level)
        && (forall l: Level :: CoursesAt(levels, l) != [] <==> exists k :: 0 <= k < |r| && r[k].level == l)
  {
    if Lookup(cs, category).Some? {
      var levels := Lookup(cs, category).value;
      SelectsForShape(category, levels, LEVELS);
      SelectsForOrdered(category, levels, LEVELS);
      SelectsForCovers(category, levels, LEVELS);
      var r := SelectsFor(category, levels, LEVELS);
      forall l: Level ensures CoursesAt(levels, l) != [] ==> exists k :: 0 <= k < |r| && r[k].level == l {
        assert l in LEVELS;
      }
    }
  }

  // ---------------------------------------------------------------------------
  // `CourseSelect.callback`

  /** The outcome of choosing a course in a dropdown: the removed or given
      role, the `TypeError` of the four-argument `add_course` call, or the
      `AssertionError` of `add_course` when the category role is missing. */
  datatype SelectReply = RoleRemoved(roleId: nat) | RoleGiven(roleId: nat) | AddCourseTypeError | CategoryRoleMissing

  function ToggleSelectReply(held: set<nat>, roleId: nat): SelectReply
  {
    if roleId in held then RoleRemoved(roleId) else RoleGiven(roleId)
  }

  /** `callback` as written: `add_course` takes three arguments, so the call
      with a fourth one fails before doing anything. */
  function CallbackAsWritten(s: GuildState, held: set<nat>, category: Category, name: string): (GuildState, set<nat>, SelectReply)
  {
    match RoleNamed(s.roles, name)
    case Some(ri) => (s, Toggled(held, s.roles[ri].id), ToggleSelectReply(held, s.roles[ri].id))
    case None => (s, held, AddCourseTypeError)
  }

  /** `callback` with the evident intent: a missing course role is provisioned
      with `add_course(guild, category, name)` and then toggled. */
  function CallbackSpec(s: GuildState, held: set<nat>, category: Category, name: string): (GuildState, set<nat>, SelectReply)
  {
    match RoleNamed(s.roles, name)
    case Some(ri) => (s, Toggled(held, s.roles[ri].id), ToggleSelectReply(held, s.roles[ri].id))
    case None =>
      var (s1, r) := AddCourseSpec(s, category, name);
      match r
      case MissingAmcRole => (s1, held, CategoryRoleMissing)
      case Provisioned(role, _) => (s1, Toggled(held, role.id), ToggleSelectReply(held, role.id))
  }

  /** `CourseSelect.callback` for the chosen course `name`, with the call to
      `add_course` as intended. */
  method Callback(g: Guild, member: Member, category: Category, name: string) returns (reply: SelectReply)
    modifies g, member
    ensures (g.State(), member.roles, reply) == CallbackSpec(old(g.State()), old(member.roles), category, name)
  {
    var role: Role;
    var ri := RoleNamed(g.roles, name);
    if ri.None? {
      var r := AddCourse(g, category, name);
      if r.MissingAmcRole? {
        return CategoryRoleMissing;
      }
      role := r.role;
    } else {
      role := g.roles[ri.value];
    }
    var removed := member.Toggle(role.id);
    if removed {
      reply := RoleRemoved(role.id);
    } else {
      reply := RoleGiven(role.id);
    }
  }

  /** As written, choosing a course nobody has a role for never creates it:
      the guild and the member are untouched and the call raises. */
  lemma CallbackAsWrittenNeverProvisions(s: GuildState, held: set<nat>, category: Category, name: string)
    requires RoleNamed(s.roles, name).None?
    ensures CallbackAsWritten(s, held, category, name) == (s, held, AddCourseTypeError)
    ensures CallbackSpec(s, held, category, name).2 != AddCourseTypeError
  {
  }

  /** A guild with only the "Area 1" role: as written the choice of ECE110H1
      raises, while the intended callback creates role 1 and gives it. */
  lemma CallbackCounterexample()
    ensures CallbackAsWritten(GuildState([Role(0, "Area 1")], [], [], 1), {}, Area(1), "ECE110H1").2 == AddCourseTypeError
    ensures CallbackSpec(GuildState([Role(0, "Area 1")], [], [], 1), {}, Area(1), "ECE110H1").2 == RoleGiven(1)
  {
    var s := GuildState([Role(0, "Area 1")], [], [], 1);
    assert AmcName(Area(1)) == "Area 1" by {
      assert IntToString(1) == "1";
    }
    assert RoleNamed(s.roles, "Area 1") == Some(0);
    assert RoleNamed(s.roles, "ECE110H1") == None;
    assert EnsureRole(s, "ECE110H1").1 == Role(1, "ECE110H1");
  }

  /** The intended callback: a missing category role changes nothing;
      otherwise the member's roles are toggled on the role named after the
      course, which exists afterwards, and ids stay unique. */
  lemma CallbackCases(s: GuildState, held: set<nat>, category: Category, name: string)
    ensures var (s', held', reply) := CallbackSpec(s, held, category, name);
      && reply != AddCourseTypeError
      && (reply == CategoryRoleMissing ==>
            s' == s && held' == held && RoleNamed(s.roles, name).None? && RoleNamed(s.roles, AmcName(category)).None?)
      && (ValidState(s) ==> ValidState(s'))
      && (RoleNamed(s.roles, name).Some? ==> s' == s && reply.roleId == s.roles[RoleNamed(s.roles, name).value].id)
      && (reply.RoleRemoved? || reply.RoleGiven? ==>
            && held' == Toggled(held, reply.roleId)
            && (reply.RoleRemoved? <==> reply.roleId in held)
            && RoleNamed(s'.roles, name).Some?
            && s'.roles[RoleNamed(s'.roles, name).value].id == reply.roleId)
  {
    if RoleNamed(s.roles, name).None? {
      AddCourseRole(s, category, name);
      if ValidState(s) {
        AddCourseValid(s, category, name);
      }
    }
  }

  /** Choosing the same course twice gives the member's roles back. */
  lemma CallbackTwice(s: GuildState, held: set<nat>, category: Category, name: string)
    ensures var (s1, held1, reply1) := CallbackSpec(s, held, category, name);
      reply1.RoleRemoved? || reply1.RoleGiven? ==>
        var (s2, held2, reply2) := CallbackSpec(s1, held1, category, name);
        && s2 == s1 && held2 == held
        && reply2 == (if reply1.RoleGiven? then RoleRemoved(reply1.roleId) else RoleGiven(reply1.roleId))
  {
    CallbackCases(s, held, category, name);
    var (s1, held1, reply1) := CallbackSpec(s, held, category, name);
    if reply1.RoleRemoved? || reply1.RoleGiven? {
      CallbackCases(s1, held1, category, name);
    }
  }

  // ---------------------------------------------------------------------------
  // messages.json and `load_guilds`

  /** The contents of messages.json as `json.load` reads it: channel ids as
      text keys, message ids as values, in file order. */
  type Registry = seq<(string, int)>

  /** messages.json: missing, not valid JSON, or a stored object. */
  datatype RegistryFile = Absent | Malformed | Stored(data: Registry)

  predicate HasKey(d: Registry, k: string)
  {
    exists i :: 0 <= i < |d| && d[i].0 == k
  }

  function OtherKey(k: string): ((string, int)) -> bool { (kv: (string, int)) => kv.0 != k }

  /** `del data[k]`, for a key that is present. */
  function RemoveKey(d: Registry, k: string): Registry
  {
    Filter(d, OtherKey(k))
  }

  /** The key of entry i; the registry predicates are stated on it. */
  function KeyAt(d: Registry, i: nat): string
    requires i < |d|
  {
    d[i].0
  }

  ghost predicate DistinctKeys(d: Registry)
  {
    forall i, j :: 0 <= i < j < |d| ==> KeyAt(d, i) != KeyAt(d, j)
  }

  /** A key that `int` reads and `str` writes back unchanged. */
  predicate Canonical(k: string)
  {
    match ParseInt(k)
    case None => false
    case Some(n) => IntToString(n) == k
  }

  /** The answer of a Discord call: success, `discord.NotFound`, or any other
      exception, which escapes `load_guilds`. */
  datatype Fetch = Fetched | NotFound | Failed

  /** How `load_guilds` ends: having run to the end, having found no file, or
      on the exception that escapes it. */
  datatype LoadOutcome =
    | Done
    | NoData
    | MalformedFile
    | KeyNotInt(key: string)
    | KeyMissing(key: string)
    | TransportError(channelId: int)

  /** The loop's state: the dict it will write, the (channel, message) pairs
      that took the category view, and whether it is still running. */
  datatype LoadState = LoadState(data: Registry, attached: seq<(int, int)>, outcome: LoadOutcome)

  /** `del data[str(channel_id)]`, or the `KeyError` of a key not written that way. */
  function Unset(st: LoadState, n: int): LoadState
  {
    if HasKey(st.data, IntToString(n)) then st.(data := RemoveKey(st.data, IntToString(n)))
    else st.(outcome := KeyMissing(IntToString(n)))
  }

  /** One item of the snapshot: `channel` is `get_channel or fetch_channel`,
      `edit` is `message.edit(view=CategoryView())`. */
  function LoadStep(st: LoadState, item: (string, int), channel: int -> Fetch, edit: (int, int) -> Fetch): LoadState
  {
    if st.outcome != Done then st
    else match ParseInt(item.0)
      case None => st.(outcome := KeyNotInt(item.0))
      case Some(n) =>
        match channel(n)
        case Failed => st.(outcome := TransportError(n))
        case NotFound => Unset(st, n)
        case Fetched =>
          match edit(n, item.1)
          case Failed => st.(outcome := TransportError(n))
          case NotFound => Unset(st, n)
          case Fetched => st.(attached := st.attached + [(n, item.1)])
  }

  /** The loop over a prefix of the snapshot `list(data.items())`. */
  function LoadItems(data: Registry, items: seq<(string, int)>, channel: int -> Fetch, edit: (int, int) -> Fetch): LoadState
  {
    if items == [] then LoadState(data, [], Done)
    else LoadStep(LoadItems(data, items[..|items| - 1], channel, edit), items[|items| - 1], channel, edit)
  }

  /** `load_guilds`: what it writes back to messages.json (the `finally`
      clause always writes), the messages it re-attached, and how it ended. */
  function LoadGuildsSpec(file: RegistryFile, channel: int -> Fetch, edit: (int, int) -> Fetch): (Registry, seq<(int, int)>, LoadOutcome)
  {
    match file
    case Absent => ([], [], NoData)
    case Malformed => ([], [], MalformedFile)
    case Stored(d) =>
      var st := LoadItems(d, d, channel, edit);
      (st.data, st.attached, st.outcome)
  }

  /** `load_guilds`. */
  method LoadGuilds(file: RegistryFile, channel: int -> Fetch, edit: (int, int) -> Fetch)
    returns (written: Registry, attached: seq<(int, int)>, outcome: LoadOutcome)
    ensures (written, attached, outcome) == LoadGuildsSpec(file, channel, edit)
  {
    if file.Absent? {
      return [], [], NoData;
    }
    if file.Malformed? {
      return [], [], MalformedFile;
    }
    var data := file.data;
    var items := data;
    attached := [];
    outcome := Done;
    var i := 0;
    while i < |items|
      invariant 0 <= i <= |items|
      invariant LoadItems(file.data, items[..i], channel, edit) == LoadState(data, attached, outcome)
      invariant outcome == Done
    {
      var item := items[i];
      assert items[..i + 1][..i] == items[..i];
      var parsed := ParseInt(item.0);
      if parsed.None? {
        outcome := KeyNotInt(item.0);
        LoadItemsErrorSticks(file.data, items, i + 1, channel, edit);
        break;
      }
      var n := parsed.value;
      var found := channel(n);
      var reply := found;
      if found == Fetched {
        reply := edit(n, item.1);
        if reply == Fetched {
          attached := attached + [(n, item.1)];
        }
      }
      if reply == NotFound {
        var key := IntToString(n);
        if !HasKey(data, key) {
          outcome := KeyMissing(key);
          LoadItemsErrorSticks(file.data, items, i + 1, channel, edit);
          break;
        }
        data := RemoveKey(data, key);
      } else if reply == Failed {
        outcome := TransportError(n);
        LoadItemsErrorSticks(file.data, items, i + 1, channel, edit);
        break;
      }
      i := i + 1;
    }
    assert LoadItems(file.data, items, channel, edit) == LoadState(data, attached, outcome) by {
      if outcome == Done {
        assert items[..i] == items;
      }
    }
    written := data;
  }

  /** Once the loop has raised, later items change nothing. */
  lemma {:induction false} LoadItemsErrorSticks(data: Registry, items: seq<(string, int)>, n: nat, channel: int -> Fetch, edit: (int, int) -> Fetch)
    requires n <= |items| && LoadItems(data, items[..n], channel, edit).outcome != Done
    ensures LoadItems(data, items, channel, edit) == LoadItems(data, items[..n], channel, edit)
    decreases |items| - n
  {
    if n < |items| {
      var init := items[..|items| - 1];
      assert init[..n] == items[..n];
      LoadItemsErrorSticks(data, init, n, channel, edit);
    } else {
      assert items[..n] == items;
    }
  }

  /** Whatever happens, the dict written back holds only entries of the file
      it read, and nothing is attached after an error. */
  lemma {:induction false} LoadItemsShrinks(data: Registry, items: seq<(string, int)>, channel: int -> Fetch, edit: (int, int) -> Fetch)
    ensures forall kv :: kv in LoadItems(data, items, channel, edit).data ==> kv in data
  {
    if items != [] {
      var st := LoadItems(data, items[..|items| - 1], channel, edit);
      LoadItemsShrinks(data, items[..|items| - 1], channel, edit);
      forall k: string ensures forall kv :: kv in RemoveKey(st.data, k) ==> kv in st.data {
        FilterMembers(st.data, OtherKey(k));
      }
    }
  }

  lemma LoadGuildsOnlyDrops(file: RegistryFile, channel: int -> Fetch, edit: (int, int) -> Fetch)
    ensures var (written, attached, outcome) := LoadGuildsSpec(file, channel, edit);
      && (file.Absent? ==> written == [] && outcome == NoData)
      && (file.Malformed? ==> written == [] && outcome == MalformedFile)
      && (file.Stored? ==> forall kv :: kv in written ==> kv in file.data)
  {
    if file.Stored? {
      LoadItemsShrinks(file.data, file.data, channel, edit);
    }
  }

  /** The entry's channel and message were both reached. */
  predicate Kept(kv: (string, int), channel: int -> Fetch, edit: (int, int) -> Fetch)
  {
    match ParseInt(kv.0)
    case None => false
    case Some(n) => channel(n) == Fetched && edit(n, kv.1) == Fetched
  }

  /** Reaching the entry's channel or message raised something other than `NotFound`. */
  predicate Breaks(kv: (string, int), channel: int -> Fetch, edit: (int, int) -> Fetch)
  {
    match ParseInt(kv.0)
    case None => false
    case Some(n) => channel(n) == Failed || (channel(n) == Fetched && edit(n, kv.1) == Failed)
  }

  function KeptBy(channel: int -> Fetch, edit: (int, int) -> Fetch): ((string, int)) -> bool
  {
    (kv: (string, int)) => Kept(kv, channel, edit)
  }

  function BreaksBy(channel: int -> Fetch, edit: (int, int) -> Fetch): ((string, int)) -> bool
  {
    (kv: (string, int)) => Breaks(kv, channel, edit)
  }

  /** The (channel, message) pairs of the kept entries. */
  function Attachments(d: Registry): seq<(int, int)>
  {
    if d == [] then []
    else Attachments(d[..|d| - 1]) + [(match ParseInt(d[|d| - 1].0) case Some(n) => n case None => 0, d[|d| - 1].1)]
  }

  ghost predicate AllCanonical(d: Registry)
  {
    forall i :: 0 <= i < |d| ==> Canonical(KeyAt(d, i))
  }

  /** Removing the key of entry i of a dict with distinct keys removes exactly that entry. */
  lemma RemoveOnly(pre: Registry, d: Registry, i: nat)
    requires i < |d| && DistinctKeys(d)
    requires forall kv :: kv in pre ==> kv in d[..i]
    ensures RemoveKey(pre + d[i..], d[i].0) == pre + d[i + 1..]
  {
    var p := OtherKey(d[i].0);
    assert d[i..] == [d[i]] + d[i + 1..];
    assert pre + d[i..] == pre + [d[i]] + d[i + 1..];
    forall kv | kv in pre ensures p(kv) {
      var k :| 0 <= k < i && d[k] == kv;
      assert KeyAt(d, k) != KeyAt(d, i);
    }
    forall kv | kv in d[i + 1..] ensures p(kv) {
      var k :| 0 <= k < |d[i + 1..]| && d[i + 1..][k] == kv;
      assert d[i + 1 + k] == kv;
      assert KeyAt(d, i) != KeyAt(d, i + 1 + k);
    }
    FilterDropOne(pre, d[i], d[i + 1..], p);
  }

  /** A reached entry stays in the file and is attached. */
  lemma LoadStepKept(kept: Registry, d: Registry, j: nat, channel: int -> Fetch, edit: (int, int) -> Fetch)
    requires j < |d| && Canonical(d[j].0) && Kept(d[j], channel, edit)
    ensures LoadStep(LoadState(kept + d[j..], Attachments(kept), Done), d[j], channel, edit)
         == LoadState((kept + [d[j]]) + d[j + 1..], Attachments(kept + [d[j]]), Done)
  {
    assert d[j..] == [d[j]] + d[j + 1..];
    assert (kept + [d[j]])[..|kept|] == kept;
  }

  /** An entry whose channel or message is gone is removed from the file. */
  lemma LoadStepDropped(kept: Registry, d: Registry, j: nat, channel: int -> Fetch, edit: (int, int) -> Fetch)
    requires j < |d| && DistinctKeys(d) && Canonical(d[j].0)
    requires !Kept(d[j], channel, edit) && !Breaks(d[j], channel, edit)
    requires forall kv :: kv in kept ==> kv in d[..j]
    ensures LoadStep(LoadState(kept + d[j..], Attachments(kept), Done), d[j], channel, edit)
         == LoadState(kept + d[j + 1..], Attachments(kept), Done)
  {
    var st := LoadState(kept + d[j..], Attachments(kept), Done);
    var n := ParseInt(d[j].0).value;
    assert IntToString(n) == d[j].0;
    assert HasKey(st.data, d[j].0) by {
      assert st.data[|kept|] == d[j];
    }
    RemoveOnly(kept, d, j);
  }

  /** One entry that does not raise: kept and attached, or dropped from the file. */
  lemma LoadItemsPrefixStep(d: Registry, j: nat, channel: int -> Fetch, edit: (int, int) -> Fetch)
    requires j < |d| && DistinctKeys(d) && Canonical(KeyAt(d, j)) && !Breaks(d[j], channel, edit)
    requires var kept := Filter(d[..j], KeptBy(channel, edit));
      LoadItems(d, d[..j], channel, edit) == LoadState(kept + d[j..], Attachments(kept), Done)
    ensures var kept := Filter(d[..j + 1], KeptBy(channel, edit));
      LoadItems(d, d[..j + 1], channel, edit) == LoadState(kept + d[j + 1..], Attachments(kept), Done)
  {
    var kp := KeptBy(channel, edit);
    var kept := Filter(d[..j], kp);
    assert d[..j + 1][..j] == d[..j] && d[..j + 1][j] == d[j];
    assert LoadItems(d, d[..j + 1], channel, edit)
        == LoadStep(LoadState(kept + d[j..], Attachments(kept), Done), d[j], channel, edit);
    FilterSnoc(d, j, kp);
    assert kp(d[j]) == Kept(d[j], channel, edit);
    if Kept(d[j], channel, edit) {
      LoadStepKept(kept, d, j, channel, edit);
    } else {
      assert kept + [] == kept;
      FilterMembers(d[..j], kp);
      LoadStepDropped(kept, d, j, channel, edit);
    }
  }

  lemma {:induction false} LoadItemsCanonicalPrefix(d: Registry, i: nat, channel: int -> Fetch, edit: (int, int) -> Fetch)
    requires i <= |d| && DistinctKeys(d) && AllCanonical(d)
    requires forall k :: 0 <= k < i ==> !Breaks(d[k], channel, edit)
    ensures var kept := Filter(d[..i], KeptBy(channel, edit));
      LoadItems(d, d[..i], channel, edit) == LoadState(kept + d[i..], Attachments(kept), Done)
  {
    if i == 0 {
      assert d[..0] == [];
    } else {
      LoadItemsCanonicalPrefix(d, i - 1, channel, edit);
      assert Canonical(KeyAt(d, i - 1));
      LoadItemsPrefixStep(d, i - 1, channel, edit);
    }
  }

  /** With distinct keys in the form `str(channel_id)` writes them (those of
      `MessageModal.on_submit`): let j be the first entry whose channel or
      message raises something other than `NotFound`, or the end. Then the
      file written back keeps, of the entries before j, exactly those whose
      channel and message were both reached, followed by every entry from j
      on, unchanged and in order; exactly those kept entries are re-attached;
      and the run is Done exactly when no entry raised. */
  lemma LoadGuildsCanonical(d: Registry, channel: int -> Fetch, edit: (int, int) -> Fetch)
    requires DistinctKeys(d) && AllCanonical(d)
    ensures var (written, attached, outcome) := LoadGuildsSpec(Stored(d), channel, edit);
      var j := match First(d, BreaksBy(channel, edit)) case None => |d| case Some(j) => j;
      var kept := Filter(d[..j], KeptBy(channel, edit));
      && written == kept + d[j..]
      && attached == Attachments(kept)
      && (outcome == Done <==> j == |d|)
      && (j < |d| ==> outcome == TransportError(ParseInt(d[j].0).value))
  {
    var bp := BreaksBy(channel, edit);
    var j := match First(d, bp) case None => |d| case Some(j) => j;
    var kept := Filter(d[..j], KeptBy(channel, edit));
    var st := LoadItems(d, d, channel, edit);
    assert LoadGuildsSpec(Stored(d), channel, edit) == (st.data, st.attached, st.outcome);
    forall k | 0 <= k < j ensures !Breaks(d[k], channel, edit) {
      assert bp(d[k]) == Breaks(d[k], channel, edit);
    }
    if j < |d| {
      assert bp(d[j]) == Breaks(d[j], channel, edit);
      LoadItemsBroken(d, j, channel, edit);
      assert st == LoadState(kept + d[j..], Attachments(kept), TransportError(ParseInt(d[j].0).value));
    } else {
      LoadItemsClean(d, channel, edit);
      assert d[..j] == d && d[j..] == [];
      assert kept + [] == kept;
      assert st == LoadState(kept + d[j..], Attachments(kept), Done);
    }
  }

  /** The loop over the whole file when no entry raises. */
  lemma LoadItemsClean(d: Registry, channel: int -> Fetch, edit: (int, int) -> Fetch)
    requires DistinctKeys(d) && AllCanonical(d)
    requires forall k :: 0 <= k < |d| ==> !Breaks(d[k], channel, edit)
    ensures var kept := Filter(d, KeptBy(channel, edit));
      LoadItems(d, d, channel, edit) == LoadState(kept, Attachments(kept), Done)
  {
    LoadItemsCanonicalPrefix(d, |d|, channel, edit);
    assert d[..|d|] == d && d[|d|..] == [];
    assert Filter(d, KeptBy(channel, edit)) + [] == Filter(d, KeptBy(channel, edit));
  }

  /** The loop over the whole file when entry j is the first that raises. */
  lemma LoadItemsBroken(d: Registry, j: nat, channel: int -> Fetch, edit: (int, int) -> Fetch)
    requires j < |d| && DistinctKeys(d) && AllCanonical(d)
    requires forall k :: 0 <= k < j ==> !Breaks(d[k], channel, edit)
    requires Breaks(d[j], channel, edit)
    ensures var kept := Filter(d[..j], KeptBy(channel, edit));
      LoadItems(d, d, channel, edit) == LoadState(kept + d[j..], Attachments(kept), TransportError(ParseInt(d[j].0).value))
  {
    LoadItemsCanonicalPrefix(d, j, channel, edit);
    var st := LoadItems(d, d[..j], channel, edit);
    assert d[..j + 1][..j] == d[..j] && d[..j + 1][j] == d[j];
    assert LoadItems(d, d[..j + 1], channel, edit) == LoadStep(st, d[j], channel, edit);
    LoadStepBreaks(st, d[j], channel, edit);
    LoadItemsErrorSticks(d, d, j + 1, channel, edit);
  }

  /** An entry whose channel or message raises ends the loop with that error. */
  lemma LoadStepBreaks(st: LoadState, item: (string, int), channel: int -> Fetch, edit: (int, int) -> Fetch)
    requires st.outcome == Done && Breaks(item, channel, edit)
    ensures LoadStep(st, item, channel, edit) == st.(outcome := TransportError(ParseInt(item.0).value))
  {
  }
}
