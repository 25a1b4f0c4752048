/**
 * The vocabularies offered by the role selector and the tag buttons,
 * collected from the dataset into a set and then sorted.
 */
module FilterOptions {
  import opened Strings
  import opened Sorting
  import opened Wrappers
  import opened PlayerData
  import opened Sequences
  import opened RosterFilter

  /**
   * The roles a descriptor names: `descriptor.split('/').map((role) =>
   * role.trim()).filter(Boolean)`, the trimmed pieces without the empty ones.
   */
  function RoleNames(descriptor: string): seq<string> {
    Filter(Map(Split(descriptor, '/'), Trim), (role: string) => role != "")
  }

  /** A role name is the trimmed text of a non-blank piece of the descriptor, and every such piece gives one. */
  lemma RoleNamesMember(descriptor: string, role: string)
    ensures role in RoleNames(descriptor) <==> IsRolePiece(descriptor, role)
  {
    var pieces := Map(Split(descriptor, '/'), Trim);
    FilterElement(pieces, (role: string) => role != "", role);
    if role in pieces {
      var k :| 0 <= k < |pieces| && pieces[k] == role;
      assert Trim(Split(descriptor, '/')[k]) == role;
    }
  }

  /** Every role name is non-empty, trimmed and a substring of its descriptor. */
  lemma RoleNameShape(descriptor: string, role: string)
    requires role in RoleNames(descriptor)
    ensures role != "" && IsTrimmed(role) && Contains(descriptor, role)
  {
    RoleNamesMember(descriptor, role);
    var parts := Split(descriptor, '/');
    var k :| 0 <= k < |parts| && Trim(parts[k]) == role;
    SplitPieceContained(descriptor, '/', k);
    TrimContained(parts[k]);
    ContainsTransitive(descriptor, parts[k], role);
  }

  /** The strings a `forEach` over `s` adds to a set, `names(x)` for each element `x`. */
  function Collect<T>(s: seq<T>, names: T -> seq<string>): set<string> {
    if s == [] then {}
    else
      var n := |s| - 1;
      Collect(s[..n], names) + Elements(names(s[n]))
  }

  lemma {:induction false} CollectMember<T>(s: seq<T>, names: T -> seq<string>, x: string)
    ensures x in Collect(s, names) <==> exists e :: e in s && x in names(e)
  {
    if s != [] {
      var n := |s| - 1;
      CollectMember(s[..n], names, x);
      assert s == s[..n] + [s[n]];
    }
  }

  /** The set `roleOptions` fills: every role name of every player. */
  function RoleVocabulary(players: seq<Player>): set<string> {
    Collect(players, (p: Player) => RoleNames(p.valorantRole))
  }

  lemma RoleVocabularyMember(players: seq<Player>, role: string)
    ensures role in RoleVocabulary(players) <==> exists p :: p in players && role in RoleNames(p.valorantRole)
  {
    CollectMember(players, (p: Player) => RoleNames(p.valorantRole), role);
  }

  /** The set `tagOptions` fills: every tag of every player. */
  function TagVocabulary(players: seq<Player>): set<string> {
    Collect(players, (p: Player) => p.tags)
  }

  lemma TagVocabularyMember(players: seq<Player>, tag: string)
    ensures tag in TagVocabulary(players) <==> exists p :: p in players && tag in p.tags
  {
    CollectMember(players, (p: Player) => p.tags, tag);
  }

  /** What `roleOptions` is: the sentinel, then the role vocabulary in strictly increasing order. */
  predicate IsRoleOptions(players: seq<Player>, options: seq<string>) {
    && |options| >= 1
    && options[0] == AllRoles
    && StrictlySorted(options[1..])
    && Elements(options[1..]) == RoleVocabulary(players)
  }

  /** What `tagOptions` is: the tag vocabulary in strictly increasing order. */
  predicate IsTagOptions(players: seq<Player>, options: seq<string>) {
    StrictlySorted(options) && Elements(options) == TagVocabulary(players)
  }

  /** Adding a string to the insertion-ordered contents of a JavaScript `Set`. */
  function SetAdd(found: seq<string>, x: string): (r: seq<string>)
    requires Distinct(found)
    ensures Distinct(r)
    ensures Elements(r) == Elements(found) + {x}
  {
    if x in found then found else found + [x]
  }

  /**
   * The `forEach` loops that fill a `Set`: for each element in order, add
   * each of its strings. The set's contents are kept in insertion order.
   */
  method CollectDistinct<T>(s: seq<T>, names: T -> seq<string>) returns (found: seq<string>)
    ensures Distinct(found)
    ensures Elements(found) == Collect(s, names)
  {
    found := [];
    for i := 0 to |s|
      invariant Distinct(found)
      invariant Elements(found) == Collect(s[..i], names)
    {
      var added := names(s[i]);
      for j := 0 to |added|
        invariant Distinct(found)
        invariant Elements(found) == Collect(s[..i], names) + Elements(added[..j])
      {
        assert Elements(added[..j + 1]) == Elements(added[..j]) + {added[j]} by {
          assert added[..j + 1] == added[..j] + [added[j]];
        }
        found := SetAdd(found, added[j]);
      }
      assert s[..i + 1][..i] == s[..i];
      assert added[..|added|] == added;
    }
    assert s[..|s|] == s;
  }

  /** `roleOptions`: collect the role names of all players into a set, sort it, put `All roles` first. */
  method RoleOptions(players: seq<Player>) returns (options: seq<string>)
    ensures |options| >= 1 && options[0] == AllRoles
    ensures StrictlySorted(options[1..])
    ensures Elements(options[1..]) == RoleVocabulary(players)
  {
    var found := CollectDistinct(players, (p: Player) => RoleNames(p.valorantRole));
    SortElements(found);
    options := [AllRoles] + Sort(found);
    assert options[1..] == Sort(found);
  }

  /** `tagOptions`: collect the tags of all players into a set and sort it. */
  method TagOptions(players: seq<Player>) returns (options: seq<string>)
    ensures StrictlySorted(options)
    ensures Elements(options) == TagVocabulary(players)
  {
    var found := CollectDistinct(players, (p: Player) => p.tags);
    SortElements(found);
    options := Sort(found);
  }

  /** `role` is the trimmed text of a non-blank `/`-piece of `descriptor`. */
  predicate IsRolePiece(descriptor: string, role: string) {
    role != "" && exists k :: 0 <= k < |Split(descriptor, '/')| && Trim(Split(descriptor, '/')[k]) == role
  }

  /**
   * Each role after the sentinel is a non-empty, trimmed `/`-piece of some
   * player's descriptor, and every such piece is offered.
   */
  lemma RoleOptionsAreRolePieces(players: seq<Player>, options: seq<string>, role: string)
    requires IsRoleOptions(players, options)
    ensures role in options[1..] <==> exists p :: p in players && IsRolePiece(p.valorantRole, role)
  {
    assert role in options[1..] <==> role in Elements(options[1..]);
    RoleVocabularyMember(players, role);
    forall p | p in players ensures role in RoleNames(p.valorantRole) <==> IsRolePiece(p.valorantRole, role) {
      RoleNamesMember(p.valorantRole, role);
    }
  }

  /** Each role after the sentinel is non-empty and trimmed. */
  lemma RoleOptionShape(players: seq<Player>, options: seq<string>, k: int)
    requires IsRoleOptions(players, options) && 1 <= k < |options|
    ensures options[k] != "" && IsTrimmed(options[k])
  {
    assert options[k] in Elements(options[1..]);
    RoleVocabularyMember(players, options[k]);
    var p :| p in players && options[k] in RoleNames(p.valorantRole);
    RoleNameShape(p.valorantRole, options[k]);
  }

  /** Selecting any offered role, with the other filters open, shows at least one player. */
  lemma RoleOptionSelectsSomeone(players: seq<Player>, options: seq<string>, k: int)
    requires IsRoleOptions(players, options) && 1 <= k < |options|
    ensures FilteredPlayers(players, Filters("", AllRegions, options[k], None)) != []
  {
    var role := options[k];
    assert role in Elements(options[1..]);
    RoleVocabularyMember(players, role);
    var p :| p in players && role in RoleNames(p.valorantRole);
    RoleNameShape(p.valorantRole, role);
    assert Matches(p, Filters("", AllRegions, role, None));
    FilterMembership(players, Filters("", AllRegions, role, None), p);
  }

  /** The tag buttons offer exactly the tags some player carries. */
  lemma TagOptionsAreTags(players: seq<Player>, options: seq<string>, tag: string)
    requires IsTagOptions(players, options)
    ensures tag in options <==> exists p :: p in players && tag in p.tags
  {
    assert tag in options <==> tag in Elements(options);
    TagVocabularyMember(players, tag);
  }

  /**
   * Selecting an offered tag, with the other filters open, shows at least
   * one player; for a non-empty tag, exactly the players that carry it (the
   * empty tag is falsy and selects everyone).
   */
  lemma TagOptionSelectsCarriers(players: seq<Player>, options: seq<string>, tag: string)
    requires IsTagOptions(players, options) && tag in options
    ensures tag != "" ==> forall p :: p in FilteredPlayers(players, Filters("", AllRegions, AllRoles, Some(tag))) <==>
      p in players && tag in p.tags
    ensures FilteredPlayers(players, Filters("", AllRegions, AllRoles, Some(tag))) != []
  {
    var f := Filters("", AllRegions, AllRoles, Some(tag));
    if tag != "" {
      forall p ensures p in FilteredPlayers(players, f) <==> p in players && tag in p.tags {
        FilterMembership(players, f, p);
      }
    }
    TagOptionsAreTags(players, options, tag);
    var p :| p in players && tag in p.tags;
    FilterMembership(players, f, p);
  }

  /** The role options are determined by the set of players alone, not by their order. */
  lemma RoleOptionsOrderIndependent(players: seq<Player>, others: seq<Player>, a: seq<string>, b: seq<string>)
    requires forall p :: p in players <==> p in others
    requires IsRoleOptions(players, a) && IsRoleOptions(others, b)
    ensures a == b
  {
    forall role ensures role in RoleVocabulary(players) <==> role in RoleVocabulary(others) {
      RoleVocabularyMember(players, role);
      RoleVocabularyMember(others, role);
    }
    StrictlySortedUnique(a[1..], b[1..]);
    assert a == [a[0]] + a[1..] && b == [b[0]] + b[1..];
  }

  /** The tag options are determined by the set of players alone, not by their order. */
  lemma TagOptionsOrderIndependent(players: seq<Player>, others: seq<Player>, a: seq<string>, b: seq<string>)
    requires forall p :: p in players <==> p in others
    requires IsTagOptions(players, a) && IsTagOptions(others, b)
    ensures a == b
  {
    forall tag ensures tag in TagVocabulary(players) <==> tag in TagVocabulary(others) {
      TagVocabularyMember(players, tag);
      TagVocabularyMember(others, tag);
    }
    StrictlySortedUnique(a, b);
  }
}
