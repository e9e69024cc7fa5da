/** The part of a Discord guild the core reads and changes: its roles, its
    categories and text channels, and the role set of one member. Lookups name
    the first entity with a given name, as `discord.utils.get` does; every
    `create_*` appends a new entity with a fresh id. */
module Guilds {
  import opened Utils
  import opened Builtins

  /** The three permission-overwrite profiles the provisioning code uses:
      no read access, read access, and read plus manage permissions/roles/channels. */
  datatype Perm = NoRead | Read | Manage

  /** What an overwrite applies to: the default (@everyone) role, a role, or the bot's own member. */
  datatype Target = Everyone | RoleTarget(roleId: nat) | Me

  type Overwrites = map<Target, Perm>

  datatype Role = Role(id: nat, name: string)

  datatype CategoryChannel = CategoryChannel(id: nat, name: string, overwrites: Overwrites)

  datatype TextChannel = TextChannel(id: nat, name: string, parent: nat, overwrites: Overwrites)

  datatype GuildState = GuildState(
    roles: seq<Role>,
    categories: seq<CategoryChannel>,
    channels: seq<TextChannel>,
    nextId: nat)

  /** Ids are unique within each kind of entity and below the next id handed out. */
  ghost predicate ValidState(s: GuildState)
  {
    && (forall i :: 0 <= i < |s.roles| ==> s.roles[i].id < s.nextId)
    && (forall i, j :: 0 <= i < j < |s.roles| ==> s.roles[i].id != s.roles[j].id)
    && (forall i :: 0 <= i < |s.categories| ==> s.categories[i].id < s.nextId)
    && (forall i, j :: 0 <= i < j < |s.categories| ==> s.categories[i].id != s.categories[j].id)
    && (forall i :: 0 <= i < |s.channels| ==> s.channels[i].id < s.nextId)
    && (forall i, j :: 0 <= i < j < |s.channels| ==> s.channels[i].id != s.channels[j].id)
  }

  // Lookups by name: the first match, or None.

  function RoleHasName(name: string): Role -> bool { (r: Role) => r.name == name }
  function CategoryHasName(name: string): CategoryChannel -> bool { (c: CategoryChannel) => c.name == name }
  function ChannelHasName(parent: nat, name: string): TextChannel -> bool
  {
    (ch: TextChannel) => ch.parent == parent && ch.name == name
  }

  function RoleNamed(roles: seq<Role>, name: string): Option<nat>
  {
    First(roles, RoleHasName(name))
  }

  function CategoryNamed(categories: seq<CategoryChannel>, name: string): Option<nat>
  {
    First(categories, CategoryHasName(name))
  }

  /** The first channel named `name` inside the category with id `parent` (`category.channels`). */
  function ChannelNamedIn(channels: seq<TextChannel>, parent: nat, name: string): Option<nat>
  {
    First(channels, ChannelHasName(parent, name))
  }

  // What a delete by id keeps: every entity with another id.

  function OtherRole(id: nat): Role -> bool { (r: Role) => r.id != id }

  function OtherChannel(id: nat): TextChannel -> bool { (ch: TextChannel) => ch.id != id }

  function OtherCategory(id: nat): CategoryChannel -> bool { (c: CategoryChannel) => c.id != id }

  // The transport's create and delete calls, on values.

  function WithRole(s: GuildState, name: string): GuildState
  {
    s.(roles := s.roles + [Role(s.nextId, name)], nextId := s.nextId + 1)
  }

  function WithCategory(s: GuildState, name: string, ow: Overwrites): GuildState
  {
    s.(categories := s.categories + [CategoryChannel(s.nextId, name, ow)], nextId := s.nextId + 1)
  }

  function WithChannel(s: GuildState, parent: nat, name: string, ow: Overwrites): GuildState
  {
    s.(channels := s.channels + [TextChannel(s.nextId, name, parent, ow)], nextId := s.nextId + 1)
  }

  /** A created entity takes the next id, so ids stay unique and below it. */
  lemma WithRoleValid(s: GuildState, name: string)
    requires ValidState(s)
    ensures ValidState(WithRole(s, name))
  {
  }

  lemma WithCategoryValid(s: GuildState, name: string, ow: Overwrites)
    requires ValidState(s)
    ensures ValidState(WithCategory(s, name, ow))
  {
  }

  lemma WithChannelValid(s: GuildState, parent: nat, name: string, ow: Overwrites)
    requires ValidState(s)
    ensures ValidState(WithChannel(s, parent, name, ow))
  {
  }

  function RoleId(r: Role): nat { r.id }
  function CategoryId(c: CategoryChannel): nat { c.id }
  function ChannelId(ch: TextChannel): nat { ch.id }

  /** A delete keeps only some entities of one kind, so ids stay unique and below the next id. */
  lemma FilterRolesValid(s: GuildState, p: Role -> bool)
    requires ValidState(s)
    ensures ValidState(s.(roles := Filter(s.roles, p)))
  {
    FilterKeys(s.roles, p, RoleId, s.nextId);
    assert forall i :: 0 <= i < |Filter(s.roles, p)| ==> RoleId(Filter(s.roles, p)[i]) == Filter(s.roles, p)[i].id;
  }

  lemma FilterCategoriesValid(s: GuildState, p: CategoryChannel -> bool)
    requires ValidState(s)
    ensures ValidState(s.(categories := Filter(s.categories, p)))
  {
    FilterKeys(s.categories, p, CategoryId, s.nextId);
    assert forall i :: 0 <= i < |Filter(s.categories, p)| ==> CategoryId(Filter(s.categories, p)[i]) == Filter(s.categories, p)[i].id;
  }

  lemma FilterChannelsValid(s: GuildState, p: TextChannel -> bool)
    requires ValidState(s)
    ensures ValidState(s.(channels := Filter(s.channels, p)))
  {
    FilterKeys(s.channels, p, ChannelId, s.nextId);
    assert forall i :: 0 <= i < |Filter(s.channels, p)| ==> ChannelId(Filter(s.channels, p)[i]) == Filter(s.channels, p)[i].id;
  }

  class Guild {
    var roles: seq<Role>
    var categories: seq<CategoryChannel>
    var channels: seq<TextChannel>
    var nextId: nat

    function State(): GuildState
      reads this
    {
      GuildState(roles, categories, channels, nextId)
    }

    ghost predicate Valid()
      reads this
    {
      ValidState(State())
    }

    constructor (s: GuildState)
      ensures State() == s
    {
      roles, categories, channels, nextId := s.roles, s.categories, s.channels, s.nextId;
    }

    /** `guild.create_role(name=...)`, with no permissions, not hoisted, not mentionable. */
    method CreateRole(name: string) returns (r: Role)
      modifies this
      ensures State() == WithRole(old(State()), name)
      ensures r == Role(old(nextId), name)
    {
      r := Role(nextId, name);
      roles := roles + [r];
      nextId := nextId + 1;
    }

    /** `guild.create_category(name, overwrites=...)`. */
    method CreateCategory(name: string, ow: Overwrites) returns (c: CategoryChannel)
      modifies this
      ensures State() == WithCategory(old(State()), name, ow)
      ensures c == CategoryChannel(old(nextId), name, ow)
    {
      c := CategoryChannel(nextId, name, ow);
      categories := categories + [c];
      nextId := nextId + 1;
    }

    /** `category.create_text_channel(name, overwrites=...)`. */
    method CreateTextChannel(parent: nat, name: string, ow: Overwrites) returns (ch: TextChannel)
      modifies this
      ensures State() == WithChannel(old(State()), parent, name, ow)
      ensures ch == TextChannel(old(nextId), name, parent, ow)
    {
      ch := TextChannel(nextId, name, parent, ow);
      channels := channels + [ch];
      nextId := nextId + 1;
    }

    /** `role.delete()`. */
    method DeleteRole(id: nat)
      modifies this
      ensures roles == Filter(old(roles), OtherRole(id))
      ensures categories == old(categories) && channels == old(channels) && nextId == old(nextId)
    {
      roles := Filter(roles, OtherRole(id));
    }

    /** `channel.delete()`. */
    method DeleteChannel(id: nat)
      modifies this
      ensures channels == Filter(old(channels), OtherChannel(id))
      ensures roles == old(roles) && categories == old(categories) && nextId == old(nextId)
    {
      channels := Filter(channels, OtherChannel(id));
    }

    /** `category.delete()`; false is the NotFound error of a category that is already gone. */
    method DeleteCategory(id: nat) returns (found: bool)
      modifies this
      ensures found == exists i :: 0 <= i < |old(categories)| && old(categories)[i].id == id
      ensures categories == Filter(old(categories), OtherCategory(id))
      ensures roles == old(roles) && channels == old(channels) && nextId == old(nextId)
    {
      found := First(categories, (c: CategoryChannel) => c.id == id).Some?;
      categories := Filter(categories, OtherCategory(id));
    }
  }

  /** A member's role set after toggling one role: removed if held, otherwise added. */
  function Toggled(held: set<nat>, roleId: nat): set<nat>
  {
    if roleId in held then held - {roleId} else held + {roleId}
  }

  class Member {
    var roles: set<nat>

    constructor (roles: set<nat>)
      ensures this.roles == roles
    {
      this.roles := roles;
    }

    /** `remove_roles(role)` when the member holds it, `add_roles(role)` otherwise. */
    method Toggle(roleId: nat) returns (removed: bool)
      modifies this
      ensures removed == (roleId in old(roles))
      ensures roles == Toggled(old(roles), roleId)
    {
      removed := roleId in roles;
      if removed {
        roles := roles - {roleId};
      } else {
        roles := roles + {roleId};
      }
    }
  }
}
