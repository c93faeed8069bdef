/** The identity provider's roles as Django rights. */
module Roles {
  import opened Prelude
  import opened Text

  /** The three ranks, in increasing order of privilege. */
  datatype Rank = Viewer | Editor | Admin

  const RANKS: seq<Rank> := [Viewer, Editor, Admin]

  /** The configured prefix of group and database role names. */
  const ROLE_PREFIX: string := "gf_"

  function Level(r: Rank): nat {
    match r case Viewer => 0 case Editor => 1 case Admin => 2
  }

  function Word(r: Rank): string {
    match r case Viewer => "viewer" case Editor => "editor" case Admin => "admin"
  }

  function GroupOf(r: Rank): string {
    ROLE_PREFIX + Word(r)
  }

  function ManagedGroups(): set<string> {
    {GroupOf(Viewer), GroupOf(Editor), GroupOf(Admin)}
  }

  lemma GroupsDistinct(a: Rank, b: Rank)
    requires GroupOf(a) == GroupOf(b)
    ensures a == b
  {
    assert GroupOf(a)[|ROLE_PREFIX|..] == Word(a) && GroupOf(b)[|ROLE_PREFIX|..] == Word(b);
    assert Word(a)[0] == Word(b)[0];
  }

  // ----- claimed roles -----

  function TrimLeft(s: string): string {
    if s != "" && IsSpace(s[0]) then TrimLeft(s[1..]) else s
  }

  function TrimRight(s: string): string {
    if s != "" && IsSpace(s[|s| - 1]) then TrimRight(s[..|s| - 1]) else s
  }

  function Lower(s: string): string {
    seq(|s|, i requires 0 <= i < |s| => if 'A' <= s[i] <= 'Z' then (s[i] as int + 32) as char else s[i])
  }

  /** `str(role).strip().lower()` of ASCII text. */
  function Normalised(role: string): string {
    Lower(TrimRight(TrimLeft(role)))
  }

  predicate Claims(claimed: seq<string>, r: Rank) {
    exists i :: 0 <= i < |claimed| && Normalised(claimed[i]) == Word(r)
  }

  /** `granted` is the most privileged of the known roles claimed, none if none is known. */
  ghost predicate IsHighest(claimed: seq<string>, granted: Option<Rank>) {
    && (granted.Some? ==> Claims(claimed, granted.value))
    && forall r | Claims(claimed, r) :: granted.Some? && Level(r) <= Level(granted.value)
  }

  /** The loop keeps the last match, and the ranks run upwards. */
  method HighestRole(claimed: seq<string>) returns (granted: Option<Rank>)
    ensures IsHighest(claimed, granted)
  {
    granted := None;
    for i := 0 to |RANKS|
      invariant granted.Some? ==> Claims(claimed, granted.value) && Level(granted.value) < i
      invariant forall r | Claims(claimed, r) && Level(r) < i :: granted.Some? && Level(r) <= Level(granted.value)
    {
      assert Level(RANKS[i]) == i && forall r :: Level(r) == i ==> r == RANKS[i];
      if Claims(claimed, RANKS[i]) { granted := Some(RANKS[i]); }
    }
    assert forall r :: Level(r) < |RANKS|;
  }

  lemma {:induction false} TrimsLeft(left: string, core: string)
    requires forall c | c in left :: IsSpace(c)
    requires core != "" ==> !IsSpace(core[0])
    ensures TrimLeft(left + core) == core
  {
    if left == "" {
      assert left + core == core;
    } else {
      assert (left + core)[0] == left[0] && left[0] in left && (left + core)[1..] == left[1..] + core;
      TrimsLeft(left[1..], core);
    }
  }

  lemma {:induction false} TrimsRight(core: string, right: string)
    requires forall c | c in right :: IsSpace(c)
    requires core != "" ==> !IsSpace(core[|core| - 1])
    ensures TrimRight(core + right) == core
  {
    if right == "" {
      assert core + right == core;
    } else {
      var s, n := core + right, |right|;
      assert s[|s| - 1] == right[n - 1] && right[n - 1] in right && s[..|s| - 1] == core + right[..n - 1];
      TrimsRight(core, right[..n - 1]);
    }
  }

  /** A claimed name counts without the blanks around it and in lower case. */
  lemma NormalisedTrims(left: string, core: string, right: string)
    requires (forall c | c in left :: IsSpace(c)) && (forall c | c in right :: IsSpace(c))
    requires core != "" && !IsSpace(core[0]) && !IsSpace(core[|core| - 1])
    ensures var out := Normalised(left + core + right);
      |out| == |core| && forall i | 0 <= i < |core| ::
        out[i] as int == core[i] as int + if 'A' <= core[i] <= 'Z' then 32 else 0
  {
    assert left + core + right == left + (core + right);
    TrimsLeft(left, core + right);
    TrimsRight(core, right);
  }

  lemma ReadsAs(left: string, core: string, right: string, word: string)
    requires (forall c | c in left :: IsSpace(c)) && (forall c | c in right :: IsSpace(c))
    requires core != "" && !IsSpace(core[0]) && !IsSpace(core[|core| - 1]) && |word| == |core|
    requires forall i | 0 <= i < |core| :: word[i] as int == core[i] as int + if 'A' <= core[i] <= 'Z' then 32 else 0
    ensures Normalised(left + core + right) == word
  {
    NormalisedTrims(left, core, right);
    var out := Normalised(left + core + right);
    assert forall i | 0 <= i < |core| :: out[i] as int == word[i] as int;
  }

  lemma NormalisedExamples()
    ensures Normalised(" Viewer\n") == "viewer" && Normalised("EDITOR") == "editor" && Normalised("Admin ") == "admin"
    ensures Normalised("viewer") == "viewer" && Normalised("guest") == "guest"
  {
    hide Normalised;
    assert " Viewer\n" == " " + "Viewer" + "\n" && "EDITOR" == "" + "EDITOR" + "" && "Admin " == "" + "Admin" + " ";
    assert "viewer" == "" + "viewer" + "" && "guest" == "" + "guest" + "";
    ReadsAs(" ", "Viewer", "\n", "viewer");
    ReadsAs("", "EDITOR", "", "editor");
    ReadsAs("", "Admin", " ", "admin");
    ReadsAs("", "viewer", "", "viewer");
    ReadsAs("", "guest", "", "guest");
  }

  /** The names of the ranks, with the blanks and capitals a provider may send: a claim grants
      the rank of its own name, the highest of several, and none for a name not known. */
  lemma ClaimsByExample()
    ensures IsHighest([" Viewer\n"], Some(Viewer)) && IsHighest(["viewer", "EDITOR"], Some(Editor))
    ensures IsHighest(["EDITOR", "Admin ", "viewer"], Some(Admin)) && IsHighest(["guest"], None) && IsHighest([], None)
    ensures GroupOf(Viewer) == "gf_viewer" && GroupOf(Editor) == "gf_editor" && GroupOf(Admin) == "gf_admin"
  {
    NormalisedExamples();
    hide Normalised;
    assert "viewer"[0] == 'v' && "editor"[0] == 'e' && "admin"[0] == 'a' && "guest"[0] == 'g';
    assert Normalised([" Viewer\n"][0]) == Word(Viewer) && Normalised(["viewer", "EDITOR"][1]) == Word(Editor);
    assert Normalised(["EDITOR", "Admin ", "viewer"][1]) == Word(Admin);
  }

  lemma HighestUnique(claimed: seq<string>, a: Option<Rank>, b: Option<Rank>)
    requires IsHighest(claimed, a) && IsHighest(claimed, b)
    ensures a == b
  {
    if a.Some? && b.Some? { assert Level(a.value) == Level(b.value); }
  }

  // ----- rights -----

  class User {
    const id: nat
    var username: string
    var groups: set<string>
    var isActive: bool
    var isStaff: bool
    var isSuperuser: bool

    constructor (id: nat, username: string)
      ensures this.id == id && this.username == username && groups == {} && isActive && !isStaff && !isSuperuser
    {
      this.id, this.username, groups := id, username, {};
      isActive, isStaff, isSuperuser := true, false, false;
    }
  }

  function GrantedGroups(granted: Option<Rank>): set<string> {
    if granted.Some? then {GroupOf(granted.value)} else {}
  }

  /** Applies the provider's roles. `existing` are the groups the deployment created; a
      missing one stops the update after the removals. */
  method ApplyRoles(user: User, claimed: seq<string>, existing: set<string>)
    returns (result: Result<Option<Rank>, string>)
    modifies user
    ensures user.username == old(user.username)
    ensures user.groups - ManagedGroups() == old(user.groups) - ManagedGroups()
    ensures result.Ok? ==>
      && IsHighest(claimed, result.value)
      && user.groups * ManagedGroups() == GrantedGroups(result.value)
      && user.isActive == user.isStaff == result.value.Some?
      && user.isSuperuser == (result.value == Some(Admin))
    ensures result.Err? ==>
      && result.error in ManagedGroups() && result.error !in existing && result.error !in old(user.groups)
      && user.groups * ManagedGroups() == {}
      && user.isActive == old(user.isActive) && user.isStaff == old(user.isStaff)
      && user.isSuperuser == old(user.isSuperuser)
  {
    var granted := HighestRole(claimed);
    var current := user.groups * ManagedGroups();
    var wanted := GrantedGroups(granted);
    user.groups := user.groups - (current - wanted);
    if granted.Some? && GroupOf(granted.value) !in current {
      if GroupOf(granted.value) !in existing { return Err(GroupOf(granted.value)); }
      user.groups := user.groups + {GroupOf(granted.value)};
    }
    user.isActive := granted.Some?;
    user.isStaff := granted.Some?;
    user.isSuperuser := granted == Some(Admin);
    result := Ok(granted);
  }

  /** The rank whose database role a user's groups earn: the highest held, else the admin
      rank for a superuser. */
  function EarnedRank(groups: set<string>, isSuperuser: bool): (earned: Option<Rank>)
    ensures forall r: Rank | GroupOf(r) in groups :: earned.Some? && Level(r) <= Level(earned.value)
    ensures earned.Some? ==> GroupOf(earned.value) in groups || (isSuperuser && earned.value == Admin)
    ensures earned.None? ==> !isSuperuser
  {
    if GroupOf(Admin) in groups then Some(Admin)
    else if GroupOf(Editor) in groups then Some(Editor)
    else if GroupOf(Viewer) in groups then Some(Viewer)
    else if isSuperuser then Some(Admin)
    else None
  }

  /** What the provider grants is what the groups then earn in the database. */
  lemma GrantedIsEarned(groups: set<string>, granted: Option<Rank>)
    requires groups * ManagedGroups() == GrantedGroups(granted)
    ensures EarnedRank(groups, granted == Some(Admin)) == granted
  {
    forall r: Rank ensures GroupOf(r) in groups <==> granted == Some(r) {
      assert GroupOf(r) in ManagedGroups();
      if granted.Some? && GroupOf(r) == GroupOf(granted.value) { GroupsDistinct(r, granted.value); }
      assert GroupOf(r) in groups <==> GroupOf(r) in groups * ManagedGroups();
    }
  }
}
