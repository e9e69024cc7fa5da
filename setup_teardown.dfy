/** The `/teardown` commands: deleting a category with its channels, and
    deleting every role whose name matches a pattern. */
module SetupTeardown {
  import opened Utils
  import opened Builtins
  import opened Guilds

  // ---- /teardown roles

  /** The condition `re.search(pattern, role.name)`, and its negation. */
  function Hits(matches: string -> bool): Role -> bool { (r: Role) => matches(r.name) }

  function Spares(matches: string -> bool): Role -> bool { (r: Role) => !matches(r.name) }

  function Names(roles: seq<Role>): seq<string>
  {
    if roles == [] then [] else Names(roles[..|roles| - 1]) + [roles[|roles| - 1].name]
  }

  lemma NamesSnoc(roles: seq<Role>, r: Role)
    ensures Names(roles + [r]) == Names(roles) + [r.name]
  {
    assert (roles + [r])[..|roles + [r]| - 1] == roles;
  }

  /** The reply: the deleted names, one per line, inside a code block. */
  function DeletedRolesReply(deleted: seq<string>): string
  {
    "Deleted: ```\n" + Join("\n", deleted) + "\n```"
  }

  /** Role ids are distinct, so deleting one role by id spares every other. */
  lemma OtherRolesSurvive(roles: seq<Role>, i: nat)
    requires i < |roles| && Unique(roles, RoleId)
    ensures forall j :: 0 <= j < |roles| && j != i ==> OtherRole(roles[i].id)(roles[j])
  {
    UniqueAt(roles, RoleId);
    forall j | 0 <= j < |roles| && j != i ensures OtherRole(roles[i].id)(roles[j]) {
      if j < i {
        assert RoleId(roles[j]) != RoleId(roles[i]);
      } else {
        assert RoleId(roles[i]) != RoleId(roles[j]);
      }
    }
  }

  /** The state of the `Teardown.roles` loop after visiting `visited`:
      the guild's roles and the names deleted so far. */
  function VisitRoles(roles: seq<Role>, visited: seq<Role>, matches: string -> bool): (seq<Role>, seq<string>)
  {
    if visited == [] then (roles, [])
    else
      var (rs, names) := VisitRoles(roles, visited[..|visited| - 1], matches);
      var role := visited[|visited| - 1];
      if matches(role.name) then (Filter(rs, OtherRole(role.id)), names + [role.name]) else (rs, names)
  }

  /** One iteration of the loop, on the state the invariant describes. */
  lemma DeleteMatchingStep(snapshot: seq<Role>, i: nat, matches: string -> bool, roles: seq<Role>, deleted: seq<string>)
    requires i < |snapshot| && Unique(snapshot, RoleId)
    requires roles == Filter(snapshot[..i], Spares(matches)) + snapshot[i..]
    requires deleted == Names(Filter(snapshot[..i], Hits(matches)))
    ensures matches(snapshot[i].name) ==>
      && Filter(roles, OtherRole(snapshot[i].id)) == Filter(snapshot[..i + 1], Spares(matches)) + snapshot[i + 1..]
      && deleted + [snapshot[i].name] == Names(Filter(snapshot[..i + 1], Hits(matches)))
    ensures !matches(snapshot[i].name) ==>
      && roles == Filter(snapshot[..i + 1], Spares(matches)) + snapshot[i + 1..]
      && deleted == Names(Filter(snapshot[..i + 1], Hits(matches)))
  {
    var role := snapshot[i];
    var done := Filter(snapshot[..i], Hits(matches));
    FilterSnoc(snapshot, i, Hits(matches));
    assert Hits(matches)(role) == matches(role.name) == !Spares(matches)(role);
    if matches(role.name) {
      OtherRolesSurvive(snapshot, i);
      FilterDeleteAt(snapshot, i, Spares(matches), OtherRole(role.id));
      NamesSnoc(done, role);
    } else {
      FilterSkipAt(snapshot, i, Spares(matches));
      assert done + [] == done;
    }
  }

  /** After visiting a prefix, the matching roles in it are gone and named in order. */
  lemma {:induction false} VisitRolesPrefix(roles: seq<Role>, i: nat, matches: string -> bool)
    requires i <= |roles| && Unique(roles, RoleId)
    ensures VisitRoles(roles, roles[..i], matches)
      == (Filter(roles[..i], Spares(matches)) + roles[i..], Names(Filter(roles[..i], Hits(matches))))
  {
    if i == 0 {
      assert roles[..0] == [] && roles[0..] == roles;
      assert Filter(roles[..0], Spares(matches)) == [] && Filter(roles[..0], Hits(matches)) == [];
      assert VisitRoles(roles, [], matches) == (roles, []);
      assert Filter(roles[..0], Spares(matches)) + roles[0..] == roles;
    } else {
      VisitRolesPrefix(roles, i - 1, matches);
      assert roles[..i][..i - 1] == roles[..i - 1] && roles[..i][i - 1] == roles[i - 1];
      var (rs, names) := VisitRoles(roles, roles[..i - 1], matches);
      DeleteMatchingStep(roles, i - 1, matches, rs, names);
    }
  }

  /** The loop of `Teardown.roles`: roles are visited in guild order; each
      matching one is deleted and its name recorded. */
  method DeleteMatching(g: Guild, matches: string -> bool) returns (deleted: seq<string>)
    modifies g
    ensures (g.roles, deleted) == VisitRoles(old(g.roles), old(g.roles), matches)
    ensures g.categories == old(g.categories) && g.channels == old(g.channels) && g.nextId == old(g.nextId)
  {
    var snapshot := g.roles;
    deleted := [];
    var i := 0;
    while i < |snapshot|
      invariant 0 <= i <= |snapshot|
      invariant (g.roles, deleted) == VisitRoles(snapshot, snapshot[..i], matches)
      invariant g.categories == old(g.categories) && g.channels == old(g.channels) && g.nextId == old(g.nextId)
    {
      var role := snapshot[i];
      assert snapshot[..i + 1][..i] == snapshot[..i] && snapshot[..i + 1][i] == role;
      if matches(role.name) {
        g.DeleteRole(role.id);
        deleted := deleted + [role.name];
      }
      i := i + 1;
    }
    assert snapshot[..i] == snapshot;
  }

  /** `Teardown.roles`: `matches` stands for `re.search(pattern, ·)` as a
      truth value. */
  method TeardownRoles(g: Guild, matches: string -> bool) returns (deleted: seq<string>, reply: string)
    requires g.Valid()
    modifies g
    ensures g.roles == Filter(old(g.roles), Spares(matches))
    ensures deleted == Names(Filter(old(g.roles), Hits(matches)))
    ensures reply == DeletedRolesReply(deleted)
    ensures g.categories == old(g.categories) && g.channels == old(g.channels) && g.nextId == old(g.nextId)
    ensures g.Valid()
  {
    FilterRolesValid(g.State(), Spares(matches));
    UniqueAt(g.roles, RoleId);
    VisitRolesPrefix(g.roles, |g.roles|, matches);
    assert g.roles[..|g.roles|] == g.roles && g.roles[|g.roles|..] == [];
    assert Filter(g.roles, Spares(matches)) + [] == Filter(g.roles, Spares(matches));
    deleted := DeleteMatching(g, matches);
    reply := DeletedRolesReply(deleted);
  }

  lemma {:induction false} RolesSplit(roles: seq<Role>, matches: string -> bool)
    ensures multiset(Filter(roles, Hits(matches))) + multiset(Filter(roles, Spares(matches))) == multiset(roles)
  {
    if roles != [] {
      RolesSplit(roles[..|roles| - 1], matches);
      assert roles == roles[..|roles| - 1] + [roles[|roles| - 1]];
    }
  }

  /** The roles kept and the roles deleted split the guild's roles: a role is
      kept exactly when its name does not match, deleted exactly when it does,
      and none is lost or duplicated. */
  lemma TeardownRolesPartition(roles: seq<Role>, matches: string -> bool)
    ensures multiset(Filter(roles, Hits(matches))) + multiset(Filter(roles, Spares(matches))) == multiset(roles)
    ensures forall r :: r in Filter(roles, Spares(matches)) <==> r in roles && !matches(r.name)
    ensures forall r :: r in Filter(roles, Hits(matches)) <==> r in roles && matches(r.name)
  {
    RolesSplit(roles, matches);
    FilterMembers(roles, Spares(matches));
    FilterMembers(roles, Hits(matches));
  }

  /** Running the same teardown again deletes nothing and keeps every role. */
  lemma TeardownRolesAgain(roles: seq<Role>, matches: string -> bool)
    ensures Filter(Filter(roles, Spares(matches)), Hits(matches)) == []
    ensures Filter(Filter(roles, Spares(matches)), Spares(matches)) == Filter(roles, Spares(matches))
  {
    var kept := Filter(roles, Spares(matches));
    FilterMembers(roles, Spares(matches));
    FilterAll(kept, Spares(matches));
    FilterNone(kept, Hits(matches));
  }

  /** `re.search('^Area', name)`. */
  predicate StartsWithArea(name: string)
  {
    |name| >= 4 && name[..4] == "Area"
  }

  lemma ExampleNames()
    ensures StartsWithArea("Area 1") && StartsWithArea("Area 2") && !StartsWithArea("ECE110H1")
  {
    assert "Area 1"[..4] == "Area" && "Area 2"[..4] == "Area" && "ECE110H1"[..4] == "ECE1";
  }

  function ExampleRoles(): seq<Role>
  {
    [Role(0, "Area 1"), Role(1, "Area 2"), Role(2, "ECE110H1")]
  }

  lemma ExampleHits()
    ensures Filter(ExampleRoles(), Hits(StartsWithArea)) == [Role(0, "Area 1"), Role(1, "Area 2")]
  {
    var roles := ExampleRoles();
    var hit := Hits(StartsWithArea);
    ExampleNames();
    assert roles[..0] == [] && roles[..3] == roles;
    FilterSnoc(roles, 0, hit);
    assert Filter(roles[..1], hit) == [Role(0, "Area 1")];
    FilterSnoc(roles, 1, hit);
    assert Filter(roles[..2], hit) == [Role(0, "Area 1"), Role(1, "Area 2")];
    FilterSnoc(roles, 2, hit);
  }

  lemma ExampleSpares()
    ensures Filter(ExampleRoles(), Spares(StartsWithArea)) == [Role(2, "ECE110H1")]
  {
    var roles := ExampleRoles();
    var spare := Spares(StartsWithArea);
    ExampleNames();
    assert roles[..0] == [] && roles[..3] == roles;
    FilterSnoc(roles, 0, spare);
    assert Filter(roles[..1], spare) == [];
    FilterSnoc(roles, 1, spare);
    assert Filter(roles[..2], spare) == [];
    FilterSnoc(roles, 2, spare);
  }

  /** Tearing down `^Area` in a guild with roles "Area 1", "Area 2" and
      "ECE110H1" deletes the first two, in guild order, and keeps the third. */
  lemma TeardownRolesExample()
    ensures Names(Filter(ExampleRoles(), Hits(StartsWithArea))) == ["Area 1", "Area 2"]
    ensures Filter(ExampleRoles(), Spares(StartsWithArea)) == [Role(2, "ECE110H1")]
  {
    ExampleHits();
    ExampleSpares();
    NamesSnoc([], Role(0, "Area 1"));
    NamesSnoc([Role(0, "Area 1")], Role(1, "Area 2"));
    assert [Role(0, "Area 1")] + [Role(1, "Area 2")] == [Role(0, "Area 1"), Role(1, "Area 2")];
    assert [] + [Role(0, "Area 1")] == [Role(0, "Area 1")];
  }

  // ---- /teardown category

  /** `category.channels`: the channels whose parent is the category, and the rest. */
  function InCategory(catId: nat): TextChannel -> bool { (ch: TextChannel) => ch.parent == catId }

  function OutsideCategory(catId: nat): TextChannel -> bool { (ch: TextChannel) => ch.parent != catId }

  function Ids(channels: seq<TextChannel>): seq<nat>
  {
    if channels == [] then [] else Ids(channels[..|channels| - 1]) + [channels[|channels| - 1].id]
  }

  lemma IdsSnoc(channels: seq<TextChannel>, ch: TextChannel)
    ensures Ids(channels + [ch]) == Ids(channels) + [ch.id]
  {
    assert (channels + [ch])[..|channels + [ch]| - 1] == channels;
  }

  /** The reply, naming the category by its `repr`. */
  function DeletedCategoryReply(name: string): string
  {
    "Deleted " + Repr(name) + " and its members."
  }

  /** Channel ids are distinct, so deleting one channel by id spares every other. */
  lemma OtherChannelsSurvive(channels: seq<TextChannel>, i: nat)
    requires i < |channels| && Unique(channels, ChannelId)
    ensures forall j :: 0 <= j < |channels| && j != i ==> OtherChannel(channels[i].id)(channels[j])
  {
    UniqueAt(channels, ChannelId);
    forall j | 0 <= j < |channels| && j != i ensures OtherChannel(channels[i].id)(channels[j]) {
      if j < i {
        assert ChannelId(channels[j]) != ChannelId(channels[i]);
      } else {
        assert ChannelId(channels[i]) != ChannelId(channels[j]);
      }
    }
  }

  /** The state of the `Teardown.category` loop after visiting `visited`:
      the guild's channels and the ids deleted so far. */
  function VisitChannels(channels: seq<TextChannel>, visited: seq<TextChannel>, catId: nat): (seq<TextChannel>, seq<nat>)
  {
    if visited == [] then (channels, [])
    else
      var (cs, ids) := VisitChannels(channels, visited[..|visited| - 1], catId);
      var ch := visited[|visited| - 1];
      if ch.parent == catId then (Filter(cs, OtherChannel(ch.id)), ids + [ch.id]) else (cs, ids)
  }

  /** One iteration of the loop, on the state the invariant describes. */
  lemma DeleteChildrenStep(all: seq<TextChannel>, i: nat, catId: nat, channels: seq<TextChannel>, deleted: seq<nat>)
    requires i < |all| && Unique(all, ChannelId)
    requires channels == Filter(all[..i], OutsideCategory(catId)) + all[i..]
    requires deleted == Ids(Filter(all[..i], InCategory(catId)))
    ensures all[i].parent == catId ==>
      && Filter(channels, OtherChannel(all[i].id)) == Filter(all[..i + 1], OutsideCategory(catId)) + all[i + 1..]
      && deleted + [all[i].id] == Ids(Filter(all[..i + 1], InCategory(catId)))
    ensures all[i].parent != catId ==>
      && channels == Filter(all[..i + 1], OutsideCategory(catId)) + all[i + 1..]
      && deleted == Ids(Filter(all[..i + 1], InCategory(catId)))
  {
    var channel := all[i];
    var done := Filter(all[..i], InCategory(catId));
    FilterSnoc(all, i, InCategory(catId));
    assert InCategory(catId)(channel) == (channel.parent == catId) == !OutsideCategory(catId)(channel);
    if channel.parent == catId {
      OtherChannelsSurvive(all, i);
      FilterDeleteAt(all, i, OutsideCategory(catId), OtherChannel(channel.id));
      IdsSnoc(done, channel);
    } else {
      FilterSkipAt(all, i, OutsideCategory(catId));
      assert done + [] == done;
    }
  }

  lemma {:induction false} VisitChannelsPrefix(all: seq<TextChannel>, i: nat, catId: nat)
    requires i <= |all| && Unique(all, ChannelId)
    ensures VisitChannels(all, all[..i], catId)
      == (Filter(all[..i], OutsideCategory(catId)) + all[i..], Ids(Filter(all[..i], InCategory(catId))))
  {
    if i == 0 {
      assert all[..0] == [] && all[0..] == all;
      assert Filter(all[..0], OutsideCategory(catId)) == [] && Filter(all[..0], InCategory(catId)) == [];
      assert VisitChannels(all, [], catId) == (all, []);
      assert Filter(all[..0], OutsideCategory(catId)) + all[0..] == all;
    } else {
      VisitChannelsPrefix(all, i - 1, catId);
      assert all[..i][..i - 1] == all[..i - 1] && all[..i][i - 1] == all[i - 1];
      var (cs, ids) := VisitChannels(all, all[..i - 1], catId);
      DeleteChildrenStep(all, i - 1, catId, cs, ids);
    }
  }

  /** The loop of `Teardown.category`: every channel of the category, in guild order. */
  method DeleteChildren(g: Guild, catId: nat) returns (deleted: seq<nat>)
    modifies g
    ensures (g.channels, deleted) == VisitChannels(old(g.channels), old(g.channels), catId)
    ensures g.categories == old(g.categories) && g.roles == old(g.roles) && g.nextId == old(g.nextId)
  {
    var all := g.channels;
    deleted := [];
    var i := 0;
    while i < |all|
      invariant 0 <= i <= |all|
      invariant (g.channels, deleted) == VisitChannels(all, all[..i], catId)
      invariant g.categories == old(g.categories) && g.roles == old(g.roles) && g.nextId == old(g.nextId)
    {
      var channel := all[i];
      assert all[..i + 1][..i] == all[..i] && all[..i + 1][i] == channel;
      if channel.parent == catId {
        g.DeleteChannel(channel.id);
        deleted := deleted + [channel.id];
      }
      i := i + 1;
    }
    assert all[..i] == all;
  }

  /** `Teardown.category`: deletes the category's channels in guild order,
      then the category; a None reply is the `NotFound` raised when the
      category is already gone. */
  method TeardownCategory(g: Guild, cat: CategoryChannel) returns (deleted: seq<nat>, reply: Option<string>)
    requires g.Valid()
    modifies g
    ensures deleted == Ids(Filter(old(g.channels), InCategory(cat.id)))
    ensures g.channels == Filter(old(g.channels), OutsideCategory(cat.id))
    ensures g.categories == Filter(old(g.categories), OtherCategory(cat.id))
    ensures reply.Some? <==> exists i :: 0 <= i < |old(g.categories)| && old(g.categories)[i].id == cat.id
    ensures reply.Some? ==> reply.value == DeletedCategoryReply(cat.name)
    ensures g.roles == old(g.roles) && g.nextId == old(g.nextId)
    ensures g.Valid()
  {
    ghost var s0 := g.State();
    FilterChannelsValid(s0, OutsideCategory(cat.id));
    ghost var s1 := s0.(channels := Filter(s0.channels, OutsideCategory(cat.id)));
    FilterCategoriesValid(s1, OtherCategory(cat.id));
    UniqueAt(g.channels, ChannelId);
    VisitChannelsPrefix(g.channels, |g.channels|, cat.id);
    assert g.channels[..|g.channels|] == g.channels && g.channels[|g.channels|..] == [];
    assert Filter(g.channels, OutsideCategory(cat.id)) + [] == Filter(g.channels, OutsideCategory(cat.id));
    deleted := DeleteChildren(g, cat.id);
    var found := g.DeleteCategory(cat.id);
    assert g.State() == s1.(categories := Filter(s1.categories, OtherCategory(cat.id)));
    if found {
      reply := Some(DeletedCategoryReply(cat.name));
    } else {
      reply := None;
    }
  }

  lemma {:induction false} ChannelsSplit(channels: seq<TextChannel>, catId: nat)
    ensures multiset(Filter(channels, InCategory(catId))) + multiset(Filter(channels, OutsideCategory(catId))) == multiset(channels)
  {
    if channels != [] {
      ChannelsSplit(channels[..|channels| - 1], catId);
      assert channels == channels[..|channels| - 1] + [channels[|channels| - 1]];
    }
  }

  /** After the teardown no channel is left in the category, every channel
      elsewhere is, and the deleted and the kept channels make up the old ones. */
  lemma TeardownCategoryLeavesNoChild(channels: seq<TextChannel>, catId: nat)
    ensures Filter(Filter(channels, OutsideCategory(catId)), InCategory(catId)) == []
    ensures forall ch :: ch in Filter(channels, OutsideCategory(catId)) <==> ch in channels && ch.parent != catId
    ensures multiset(Filter(channels, InCategory(catId))) + multiset(Filter(channels, OutsideCategory(catId))) == multiset(channels)
  {
    var left := Filter(channels, OutsideCategory(catId));
    FilterMembers(channels, OutsideCategory(catId));
    FilterNone(left, InCategory(catId));
    ChannelsSplit(channels, catId);
  }

  /** A category whose name needs no escaping is named in single quotes. */
  lemma CategoryReplyPlain(name: string)
    requires forall i :: 0 <= i < |name| ==> PlainChar(name[i])
    ensures DeletedCategoryReply(name) == "Deleted '" + name + "' and its members."
  {
    ReprPlain(name);
  }
}
