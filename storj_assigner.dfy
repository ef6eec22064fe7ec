/**
 * `io.storj.gerrit.plugins.codeowners.ReviewAssigner`: turns the owner tokens
 * of the changed files into Gerrit account ids through a memoising cache,
 * tops the candidates up from the authors of the files' history, and asks a
 * hash ring built over the candidates for the reviewers of a change.
 *
 * Gerrit's account query, the GitHub lookups and the history walk are
 * parameters: a query oracle, a user e-mail oracle, a team oracle and the
 * author e-mails of the log in order.
 */
module StorjAssigner {
  import opened Wrappers
  import opened JavaStrings
  import opened LinkedSets
  import opened HashRings
  import opened StorjRing
  import opened CodeOwnersSyntax
  import StorjConfig
  import TreeMaps

  datatype ReviewerState = Reviewer | Cc | Removed

  /** The parts of `ChangeInfo` the plugin reads; `null` fields are `None`. */
  datatype Change = Change(
    id: string,
    owner: int,
    reviewers: Option<map<ReviewerState, seq<int>>>,
    workInProgress: Option<bool>,
    isPrivate: Option<bool>)

  /** Reading a GitHub user's e-mail: it throws, or yields an address or `null`. */
  datatype EmailRead = Throws | Read(address: Option<string>)

  datatype Member = Member(login: string, email: EmailRead)

  datatype Privacy = Secret | Closed

  /**
   * `github.getOrganization(org)`, then `getTeamBySlug(team)` and
   * `getMembers()`: one of the three throws `IOException`, or the
   * organisation or the team is `null`, or the team is found.
   */
  datatype TeamLookup = LookupThrows | NoOrganization | NoTeam | Team(privacy: Privacy, members: seq<Member>)

  /** Where `fromCodeOwners` sends an owner token. */
  datatype Route =
    | ByUsername(name: string)
    | ByEmail(address: string)
    | ByTeam(org: string, team: string)
    | BadTeamSplit   // `owner.substring(1, 0)` throws

  /**
   * Token routing as the code has it: every token with a leading `@` is a
   * user name, even `@org/team`; a token with no `/` is an e-mail; the team
   * branch takes the rest, cutting the organisation from index 1.
   */
  function RouteOf(token: string): Route
  {
    var split := IndexOf(token, '/');
    if StartsWith(token, "@") then ByUsername(token[1..])
    else if split == -1 then ByEmail(token)
    else if split == 0 then BadTeamSplit
    else ByTeam(token[1..split], token[split + 1..])
  }

  /** The routes partition the tokens, and a team token is rebuilt from its two names. */
  lemma RouteCases(token: string)
    ensures RouteOf(token).ByUsername? <==> |token| > 0 && token[0] == '@'
    ensures RouteOf(token).ByUsername? ==> token == "@" + RouteOf(token).name
    ensures RouteOf(token).ByEmail? <==> (|token| == 0 || token[0] != '@') && '/' !in token
    ensures RouteOf(token).BadTeamSplit? <==> |token| > 0 && token[0] == '/'
    ensures RouteOf(token).ByTeam? ==>
      var r := RouteOf(token);
      token[0] != '@' && token == [token[0]] + r.org + "/" + r.team && '/' !in r.org
  {
    var split := IndexOf(token, '/');
    if |token| > 0 && token[0] == '@' {
      assert StartsWith(token, "@");
      assert token == "@" + token[1..];
    } else if split > 0 {
      assert token == [token[0]] + token[1..split] + "/" + token[split + 1..];
    }
  }

  /** The account count `assign` finds on a change: its REVIEWER-state reviewers, or 0. */
  function Existing(change: Change): nat
  {
    if change.reviewers.Some? && Reviewer in change.reviewers.value then |change.reviewers.value[Reviewer]| else 0
  }

  /** `"" + s` in Java: a `null` string prints as `null`. */
  function Text(s: Option<string>): string
  {
    match s
    case None => "null"
    case Some(t) => t
  }

  function UsernameKey(name: string): string
  {
    "username:" + name
  }

  function EmailKey(address: string): string
  {
    "email:" + address
  }

  /** `Math.min(reviewers.size(), missingReviewers)`, as written. */
  function CountAsWritten(candidates: nat, missing: int): int
  {
    if candidates <= missing then candidates else missing
  }

  /** The number of reviewers to request, kept from going below zero. */
  function Count(candidates: nat, missing: int): (n: nat)
    ensures n <= candidates && (missing <= 0 ==> n == 0) && (missing > 0 ==> n == CountAsWritten(candidates, missing))
  {
    if missing <= 0 then 0 else CountAsWritten(candidates, missing)
  }

  /**
   * A change that already has more reviewers than the file asks for gives a
   * negative count, and `getNodes` with a negative size returns every node it
   * reaches: three REVIEWER-state reviewers, a count of 2 and two candidates
   * make the plugin ask for both candidates.
   */
  lemma SurplusReviewersAssignAll(r: HashRing, change: Change, key: string)
    requires change.reviewers == Some(map[Reviewer := [1, 2, 3]])
    requires Valid(r) && Size(r) == 2
    ensures 2 - Existing(change) == -1
    ensures CountAsWritten(2, 2 - Existing(change)) == -1
    ensures Selection(r, key, CountAsWritten(2, 2 - Existing(change))) == Dedup(Scan(r, r.hasher(key)))
  {
    SelectionShape(r, key, -1);
  }

  /** With the corrected count the request never takes a change past the reviewer count it already meets. */
  lemma CountNeverExceedsMissing(r: HashRing, key: string, candidates: nat, missing: int)
    requires Valid(r)
    ensures |Selection(r, key, Count(candidates, missing))| <= (if missing < 0 then 0 else missing)
    ensures |Selection(r, key, Count(candidates, missing))| <= candidates
  {
    SelectionShape(r, key, Count(candidates, missing));
  }

  /** The iteration order of a `HashSet<Integer>`: its elements, each once, in some order. */
  method ToSeq<T>(items: set<T>) returns (xs: seq<T>)
    ensures forall x :: x in xs <==> x in items
    ensures |xs| == |items|
    ensures forall i, j :: 0 <= i < j < |xs| ==> xs[i] != xs[j]
  {
    xs := [];
    var rest := items;
    ghost var done: set<T> := {};
    while rest != {}
      invariant done + rest == items
      invariant forall x :: x in xs <==> x in done
      invariant done !! rest && |xs| == |done|
      invariant forall i, j :: 0 <= i < j < |xs| ==> xs[i] != xs[j]
      decreases |rest|
    {
      var next :| next in rest;
      xs := xs + [next];
      rest, done := rest - {next}, done + {next};
    }
  }

  /**
   * A ring as `fromElements` leaves it over the candidates' account ids as
   * text: made by `make()` over hasher `h`, every node at weight 1, and its
   * nodes exactly the names of the candidates.
   */
  ghost predicate CandidateRing(r: HashRing, h: string -> string, candidates: set<int>)
  {
    Valid(r) && r.hasher == h && UnitWeights(r.weights) &&
    forall n :: n in Nodes(r.weights) <==> exists id :: id in candidates && n == IntToString(id)
  }

  /**
   * Over a hasher without collisions, whatever order the `HashSet` hands the
   * candidates over in, the ring chooses the same reviewers for a change.
   */
  lemma SameCandidatesSameChoice(a: HashRing, b: HashRing, h: string -> string, candidates: set<int>, key: string, size: int)
    requires Collisionless(h)
    requires CandidateRing(a, h, candidates) && CandidateRing(b, h, candidates)
    ensures Selection(a, key, size) == Selection(b, key, size)
  {
    CollisionlessSeparated(h, a.weights);
    CollisionlessSeparated(h, b.weights);
    SameNodesSameChoice(a, b, key, size);
  }

  /**
   * Over a hasher without collisions, a change id that is no candidate's
   * first replica label `id + "-0"` finds no entry at its own hash.
   */
  lemma NeedleOffRing(r: HashRing, h: string -> string, candidates: set<int>, key: string)
    requires Collisionless(h) && CandidateRing(r, h, candidates)
    requires forall id :: id in candidates ==> key != Label(IntToString(id), 0)
    ensures TreeMaps.Get(r.ring, h(key)) == None
  {
    CollisionlessSeparated(h, r.weights);
    UnitOwner(h, r.weights, h(key));
  }

  /** What a Gerrit event makes the plugin do. */
  datatype Action = Ignore | Unassign | Assign

  function Flag(b: Option<bool>): bool
  {
    b == Some(true)
  }

  /** `onWorkInProgressStateChanged`: a WIP or private change loses its reviewers, any other gets them. */
  function OnWorkInProgressStateChanged(change: Change): Action
  {
    if Flag(change.workInProgress) || Flag(change.isPrivate) then Unassign else Assign
  }

  /** `onCommentAdded`: a comment containing `autoassign` assigns reviewers. */
  function OnCommentAdded(comment: Option<string>): Action
  {
    if comment.Some? && Contains(comment.value, "autoassign") then Assign else Ignore
  }

  /** `onRevisionCreated`: no change (a rebase), a private or a WIP change is left alone. */
  function OnRevisionCreated(change: Option<Change>): Action
  {
    if change.None? then Ignore
    else if Flag(change.value.isPrivate) then Ignore
    else if Flag(change.value.workInProgress) then Ignore
    else Assign
  }

  /**
   * A new revision assigns reviewers exactly when toggling the change out of
   * WIP would, and never removes any; a comment without the keyword does nothing.
   */
  lemma HandlersAgree(change: Change, comment: Option<string>)
    ensures OnRevisionCreated(Some(change)) == Assign <==> OnWorkInProgressStateChanged(change) == Assign
    ensures OnRevisionCreated(Some(change)) != Unassign && OnCommentAdded(comment) != Unassign
    ensures OnRevisionCreated(None) == Ignore
    ensures OnCommentAdded(comment) == Assign <==> comment.Some? && Contains(comment.value, "autoassign")
  {
  }

  /** The plugin's state: the account cache, plus the services it calls, as oracles. */
  class Assigner {
    /** `[username:|email:]name -> gerritAccountId`. */
    var cache: map<string, int>
    /** `gerrit.accounts().query(k).get()`: the accounts found, or `None` when it throws. */
    const query: string -> Option<seq<int>>
    /** `github.getUser(name).getEmail()`. */
    const githubEmail: string -> EmailRead
    const teams: (string, string) -> TeamLookup
    /** `FastIgnoreRule(pattern).isMatch(path, false)`. */
    const matches: (string, string) -> bool
    const hasher: string -> string

    constructor(query: string -> Option<seq<int>>, githubEmail: string -> EmailRead,
                teams: (string, string) -> TeamLookup, matches: (string, string) -> bool,
                hasher: string -> string)
      ensures this.query == query && this.githubEmail == githubEmail && this.teams == teams
      ensures this.matches == matches && this.hasher == hasher && cache == map[]
    {
      this.query := query;
      this.githubEmail := githubEmail;
      this.teams := teams;
      this.matches := matches;
      this.hasher := hasher;
      cache := map[];
    }

    /** `loader`: the first account the query finds; `null` when it finds none or throws. */
    function Load(k: string): Option<int>
    {
      match query(k)
      case None => None
      case Some(ids) => if |ids| > 0 then Some(ids[0]) else None
    }

    /** What `computeIfAbsent(k, loader)` answers over cache `c`. */
    function Resolve(c: map<string, int>, k: string): Option<int>
    {
      if k in c then Some(c[k]) else Load(k)
    }

    /** The cache `computeIfAbsent(k, loader)` leaves behind. */
    function Store(c: map<string, int>, k: string): map<string, int>
    {
      if k in c then c
      else match Load(k)
        case None => c
        case Some(id) => c[k := id]
    }

    /**
     * The cache keeps every answer it held and gains only the key just
     * resolved, and only when it resolved: a miss is never stored.
     */
    lemma StoreKeepsAnswers(c: map<string, int>, k: string)
      ensures forall k' :: Resolve(Store(c, k), k') == Resolve(c, k')
      ensures Store(c, k).Keys == c.Keys + (if Resolve(c, k).Some? then {k} else {})
      ensures forall k' :: k' in c ==> Store(c, k)[k'] == c[k']
    {
    }

    /** `c2` holds every key of `c1` and gives the same answer as `c1` for every key. */
    ghost predicate Agrees(c1: map<string, int>, c2: map<string, int>)
    {
      c1.Keys <= c2.Keys && forall k :: Resolve(c2, k) == Resolve(c1, k)
    }

    /** `cache.computeIfAbsent(k, loader)`. */
    method Lookup(k: string) returns (id: Option<int>)
      modifies this
      ensures id == Resolve(old(cache), k) && cache == Store(old(cache), k)
      ensures Agrees(old(cache), cache)
    {
      StoreKeepsAnswers(cache, k);
      if k in cache {
        return Some(cache[k]);
      }
      id := Load(k);
      if id.Some? {
        cache := cache[k := id.value];
      }
    }

    /** The e-mail fallback: a read that throws gives `null`, otherwise the `email:` key decides. */
    function Fallback(c: map<string, int>, read: EmailRead): Option<int>
    {
      match read
      case Throws => None
      case Read(address) => Resolve(c, EmailKey(Text(address)))
    }

    /** `findByUsername`: the `username:` key, then the GitHub e-mail of that user. */
    function UsernameId(c: map<string, int>, name: string): Option<int>
    {
      var id := Resolve(c, UsernameKey(name));
      if id.Some? then id else Fallback(c, githubEmail(name))
    }

    /** `findGithubMember`: the member's `username:` key, then the member's e-mail. */
    function MemberId(c: map<string, int>, m: Member): Option<int>
    {
      var id := Resolve(c, UsernameKey(m.login));
      if id.Some? then id else Fallback(c, m.email)
    }

    /** The accounts of a team's members; a missing organisation or team, or a secret team, gives none. */
    function TeamIds(c: map<string, int>, lookup: TeamLookup): set<int>
    {
      match lookup
      case Team(privacy, members) =>
        if privacy == Secret then {} else MemberIds(c, members)
      case _ => {}
    }

    /** The accounts one owner token contributes. */
    function TokenIds(c: map<string, int>, token: string): set<int>
    {
      match RouteOf(token)
      case ByUsername(name) => if UsernameId(c, name).Some? then {UsernameId(c, name).value} else {}
      case ByEmail(address) => if Resolve(c, EmailKey(address)).Some? then {Resolve(c, EmailKey(address)).value} else {}
      case ByTeam(org, team) => TeamIds(c, teams(org, team))
      case BadTeamSplit => {}
    }

    /** The accounts a set of owner tokens contributes. */
    function IdsOf(c: map<string, int>, tokens: set<string>): set<int>
    {
      set t, id | t in tokens && id in TokenIds(c, t) :: id
    }

    /** Resolving `token` throws: its organisation would be cut from index 1 to 0, or its team lookup throws. */
    predicate TokenThrows(token: string)
    {
      match RouteOf(token)
      case BadTeamSplit => true
      case ByTeam(org, team) => teams(org, team).LookupThrows?
      case _ => false
    }

    /** What a throwing token raises. */
    function TokenError(token: string): string
    {
      if RouteOf(token).BadTeamSplit? then "StringIndexOutOfBoundsException" else "IOException"
    }

    /** The owner tokens of the rules matching `path`, over every matching rule. */
    function PathOwners(config: StorjConfig.Config, path: string): set<string>
    {
      set i, o | 0 <= i < |config.rules| && matches(config.rules[i].pattern, path) && o in config.rules[i].owners :: o
    }

    /** The owner tokens of every changed file, unioned before any of them is resolved. */
    function AllOwners(config: StorjConfig.Config, files: set<string>): set<string>
    {
      set p, o | p in files && o in PathOwners(config, p) :: o
    }

    /** Answers that agree give the same account for a team member. */
    lemma MemberIdAgrees(c1: map<string, int>, c2: map<string, int>, m: Member)
      requires Agrees(c1, c2)
      ensures MemberId(c2, m) == MemberId(c1, m)
    {
      assert Resolve(c2, UsernameKey(m.login)) == Resolve(c1, UsernameKey(m.login));
    }

    /** Answers that agree give the same accounts for a token. */
    lemma TokenIdsAgree(c1: map<string, int>, c2: map<string, int>, token: string)
      requires Agrees(c1, c2)
      ensures TokenIds(c2, token) == TokenIds(c1, token)
    {
      if RouteOf(token).ByTeam? {
        var lookup := teams(RouteOf(token).org, RouteOf(token).team);
        if lookup.Team? {
          forall m | m in lookup.members
            ensures MemberId(c2, m) == MemberId(c1, m)
          {
            MemberIdAgrees(c1, c2, m);
          }
        }
      }
    }

    /** The accounts of a list of team members. */
    function MemberIds(c: map<string, int>, members: seq<Member>): set<int>
    {
      set m | m in members && MemberId(c, m).Some? :: MemberId(c, m).value
    }

    lemma MemberIdsSnoc(c: map<string, int>, members: seq<Member>, m: Member)
      ensures MemberIds(c, members + [m]) == MemberIds(c, members) + (if MemberId(c, m).Some? then {MemberId(c, m).value} else {})
    {
      var ms := members + [m];
      assert forall x :: x in ms <==> x in members || x == m;
    }

    lemma IdsOfAdd(c: map<string, int>, tokens: set<string>, t: string)
      ensures IdsOf(c, tokens + {t}) == IdsOf(c, tokens) + TokenIds(c, t)
    {
      forall id | id in IdsOf(c, tokens + {t})
        ensures id in IdsOf(c, tokens) + TokenIds(c, t)
      {
        var u :| u in tokens + {t} && id in TokenIds(c, u);
      }
      forall id | id in TokenIds(c, t)
        ensures id in IdsOf(c, tokens + {t})
      {
        assert t in tokens + {t};
      }
    }

    /** `findByEmail(address)`. */
    method FindByEmail(address: string) returns (id: Option<int>)
      modifies this
      ensures id == Resolve(old(cache), EmailKey(address)) && Agrees(old(cache), cache)
    {
      id := Lookup(EmailKey(address));
    }

    /** `findByUsername(name)`. */
    method FindByUsername(name: string) returns (id: Option<int>)
      modifies this
      ensures id == UsernameId(old(cache), name) && Agrees(old(cache), cache)
    {
      id := Lookup(UsernameKey(name));
      if id.Some? {
        return id;
      }
      match githubEmail(name)
      case Throws =>
        return None;
      case Read(address) =>
        id := FindByEmail(Text(address));
    }

    /** `findGithubMember(member)`. */
    method FindGithubMember(m: Member) returns (id: Option<int>)
      modifies this
      ensures id == MemberId(old(cache), m) && Agrees(old(cache), cache)
    {
      id := Lookup(UsernameKey(m.login));
      if id.Some? {
        return id;
      }
      match m.email
      case Throws =>
        return None;
      case Read(address) =>
        id := FindByEmail(Text(address));
    }

    /**
     * The team branch of `fromCodeOwners`: a lookup that throws is a
     * failure before any member is resolved; otherwise every resolved
     * member is added.
     */
    method FromTeam(lookup: TeamLookup) returns (r: Result<set<int>, string>)
      modifies this
      ensures Agrees(old(cache), cache)
      ensures r.Failure? <==> lookup.LookupThrows?
      ensures r.Failure? ==> r.error == "IOException" && cache == old(cache)
      ensures r.Success? ==> r.value == TeamIds(old(cache), lookup)
    {
      if lookup.LookupThrows? {
        return Failure("IOException");
      }
      var ids := {};
      if !lookup.Team? || lookup.privacy == Secret {
        return Success(ids);
      }
      var members := lookup.members;
      ghost var c0 := cache;
      for i := 0 to |members|
        invariant Agrees(c0, cache)
        invariant ids == MemberIds(c0, members[..i])
      {
        assert members[..i + 1] == members[..i] + [members[i]];
        MemberIdsSnoc(c0, members[..i], members[i]);
        MemberIdAgrees(c0, cache, members[i]);
        var id := FindGithubMember(members[i]);
        if id.Some? {
          ids := ids + {id.value};
        }
      }
      assert members[..|members|] == members;
      return Success(ids);
    }

    /** One owner token of `fromCodeOwners`: its ids along its route, or the exception it raises. */
    method FromToken(token: string) returns (r: Result<set<int>, string>)
      modifies this
      ensures Agrees(old(cache), cache)
      ensures r.Failure? <==> TokenThrows(token)
      ensures r.Failure? ==> r.error == TokenError(token)
      ensures r.Success? ==> r.value == TokenIds(old(cache), token)
    {
      match RouteOf(token)
      case ByUsername(name) =>
        var id := FindByUsername(name);
        r := Success(if id.Some? then {id.value} else {});
      case ByEmail(address) =>
        var id := FindByEmail(address);
        r := Success(if id.Some? then {id.value} else {});
      case ByTeam(org, team) =>
        r := FromTeam(teams(org, team));
      case BadTeamSplit =>
        r := Failure("StringIndexOutOfBoundsException");
    }

    /** The owner tokens of the changed files: `ownersFor` of each, unioned. */
    method OwnersOf(config: StorjConfig.Config, files: set<string>) returns (owners: set<string>)
      ensures owners == AllOwners(config, files)
    {
      owners := {};
      var rest := files;
      while rest != {}
        invariant rest <= files
        invariant owners == AllOwners(config, files - rest)
        decreases |rest|
      {
        var p :| p in rest;
        var found := StorjConfig.OwnersFor(config, matches, p);
        AllOwnersAdd(config, files - rest, p);
        owners := owners + found;
        assert files - (rest - {p}) == (files - rest) + {p};
        rest := rest - {p};
      }
    }

    /** Taking one more file in adds exactly that file's owners. */
    lemma AllOwnersAdd(config: StorjConfig.Config, done: set<string>, p: string)
      ensures AllOwners(config, done + {p}) == AllOwners(config, done) + PathOwners(config, p)
    {
    }

    /**
     * `fromCodeOwners(config, changedFiles)`: the accounts of all owner
     * tokens; a token that starts with `/` or whose team lookup throws is a failure.
     */
    method FromCodeOwners(config: StorjConfig.Config, files: set<string>) returns (r: Result<set<int>, string>)
      modifies this
      ensures Agrees(old(cache), cache)
      ensures r.Failure? <==> exists t :: t in AllOwners(config, files) && TokenThrows(t)
      ensures r.Failure? ==> exists t :: t in AllOwners(config, files) && TokenThrows(t) && r.error == TokenError(t)
      ensures r.Success? ==> r.value == IdsOf(old(cache), AllOwners(config, files))
    {
      var owners := OwnersOf(config, files);
      r := ResolveTokens(owners);
    }

    /** The loop of `fromCodeOwners` over the owner tokens, each resolved through the cache. */
    method ResolveTokens(owners: set<string>) returns (r: Result<set<int>, string>)
      modifies this
      ensures Agrees(old(cache), cache)
      ensures r.Failure? <==> exists t :: t in owners && TokenThrows(t)
      ensures r.Failure? ==> exists t :: t in owners && TokenThrows(t) && r.error == TokenError(t)
      ensures r.Success? ==> r.value == IdsOf(old(cache), owners)
    {
      ghost var c0 := cache;
      var todo := owners;
      ghost var done: set<string> := {};
      var ids: set<int> := {};
      while todo != {}
        invariant done + todo == owners && Agrees(c0, cache)
        invariant forall t :: t in done ==> !TokenThrows(t)
        invariant ids == IdsOf(c0, done)
        decreases |todo|
      {
        var t :| t in todo;
        TokenIdsAgree(c0, cache, t);
        IdsOfAdd(c0, done, t);
        var found := FromToken(t);
        if found.Failure? {
          return Failure(found.error);
        }
        ids := ids + found.value;
        todo, done := todo - {t}, done + {t};
      }
      return Success(ids);
    }

    /** One commit author: its account, unless it is the change owner's. */
    function AuthorId(c: map<string, int>, ownerId: int, email: string): set<int>
    {
      var id := Resolve(c, email);
      if id.Some? && id.value != ownerId then {id.value} else {}
    }

    /** The accounts of all the authors, the owner left out. */
    function AuthorIds(c: map<string, int>, ownerId: int, authors: seq<string>): set<int>
    {
      set e, id | e in authors && id in AuthorId(c, ownerId, e) :: id
    }

    /** What `fromGit` leaves in the set: authors are added until the set holds `required` accounts. */
    function TopUp(c: map<string, int>, ownerId: int, accounts: set<int>, authors: seq<string>, required: int): set<int>
      decreases |authors|
    {
      if required <= |accounts| || authors == [] then accounts
      else TopUp(c, ownerId, accounts + AuthorId(c, ownerId, authors[0]), authors[1..], required)
    }

    /**
     * `fromGit` only adds, only adds authors, never adds the change owner,
     * and stops short of the whole history only once the set is large enough.
     */
    lemma {:induction false} TopUpSpec(c: map<string, int>, ownerId: int, accounts: set<int>, authors: seq<string>, required: int)
      ensures accounts <= TopUp(c, ownerId, accounts, authors, required)
      ensures TopUp(c, ownerId, accounts, authors, required) <= accounts + AuthorIds(c, ownerId, authors)
      ensures ownerId in TopUp(c, ownerId, accounts, authors, required) ==> ownerId in accounts
      ensures required <= |TopUp(c, ownerId, accounts, authors, required)| ||
              TopUp(c, ownerId, accounts, authors, required) == accounts + AuthorIds(c, ownerId, authors)
      decreases |authors|
    {
      if !(required <= |accounts| || authors == []) {
        var next := accounts + AuthorId(c, ownerId, authors[0]);
        TopUpSpec(c, ownerId, next, authors[1..], required);
        AuthorIdsCons(c, ownerId, authors);
      } else if authors == [] {
        assert AuthorIds(c, ownerId, authors) == {};
      }
    }

    lemma AuthorIdsCons(c: map<string, int>, ownerId: int, authors: seq<string>)
      requires authors != []
      ensures AuthorIds(c, ownerId, authors) == AuthorId(c, ownerId, authors[0]) + AuthorIds(c, ownerId, authors[1..])
    {
      assert authors == [authors[0]] + authors[1..];
    }

    /** `fromGit(ownerId, accounts, repo, changedFiles, requiredCount)`, the log given as its author e-mails. */
    method FromGit(ownerId: int, accounts: set<int>, authors: seq<string>, requiredCount: int) returns (r: set<int>)
      modifies this
      ensures r == TopUp(old(cache), ownerId, accounts, authors, requiredCount)
      ensures Agrees(old(cache), cache)
    {
      ghost var c0 := cache;
      r := accounts;
      var i := 0;
      while requiredCount > |r| && i < |authors|
        invariant 0 <= i <= |authors| && Agrees(c0, cache)
        invariant TopUp(c0, ownerId, r, authors[i..], requiredCount) == TopUp(c0, ownerId, accounts, authors, requiredCount)
        decreases |authors| - i
      {
        assert authors[i..][1..] == authors[i + 1..];
        var id := Lookup(authors[i]);
        if id.Some? && id.value != ownerId {
          r := r + {id.value};
        }
        i := i + 1;
      }
    }

    /**
     * The accounts `assign` hands to the ring, given the owners' accounts
     * `ids`: those less the change owner, topped up from the history when
     * too few.
     */
    function Candidates(c: map<string, int>, change: Change, config: StorjConfig.Config, ids: set<int>, authors: seq<string>): set<int>
    {
      var base := ids - {change.owner};
      if |base| < config.reviewerCount && config.useGitHistory
      then TopUp(c, change.owner, base, authors, config.reviewerCount - Existing(change))
      else base
    }

    /** The candidates are the top-up when there are too few owner accounts and the history is enabled, and those accounts otherwise. */
    lemma CandidatesCases(c: map<string, int>, change: Change, config: StorjConfig.Config, ids: set<int>, authors: seq<string>)
      ensures |ids - {change.owner}| < config.reviewerCount && config.useGitHistory ==>
              Candidates(c, change, config, ids, authors) ==
              TopUp(c, change.owner, ids - {change.owner}, authors, config.reviewerCount - Existing(change))
      ensures !(|ids - {change.owner}| < config.reviewerCount && config.useGitHistory) ==>
              Candidates(c, change, config, ids, authors) == ids - {change.owner}
    {
    }

    /** The change owner is never a candidate, and every owner account but the change owner's is. */
    lemma CandidatesSpec(c: map<string, int>, change: Change, config: StorjConfig.Config, ids: set<int>, authors: seq<string>)
      ensures change.owner !in Candidates(c, change, config, ids, authors)
      ensures ids - {change.owner} <= Candidates(c, change, config, ids, authors)
    {
      TopUpSpec(c, change.owner, ids - {change.owner}, authors, config.reviewerCount - Existing(change));
    }

    /**
     * What `assign` does between parsing and the ring: the owners' accounts,
     * less the change owner, topped up from the history when too few and
     * the file asks for it; a team token that throws is a failure.
     */
    method Gather(change: Change, config: StorjConfig.Config, files: set<string>, authors: seq<string>) returns (r: Result<set<int>, string>)
      modifies this
      ensures Agrees(old(cache), cache)
      ensures r.Failure? <==> exists t :: t in AllOwners(config, files) && TokenThrows(t)
      ensures r.Failure? ==> exists t :: t in AllOwners(config, files) && TokenThrows(t) && r.error == TokenError(t)
      ensures r.Success? ==> r.value == Candidates(old(cache), change, config, IdsOf(old(cache), AllOwners(config, files)), authors)
      ensures r.Success? ==> change.owner !in r.value
    {
      ghost var c := cache;
      var found := FromCodeOwners(config, files);
      if found.Failure? {
        return Failure(found.error);
      }
      var reviewers := WithHistory(c, change, config, found.value, authors);
      return Success(reviewers);
    }

    /** The owners' accounts less the change owner, topped up from the history when too few and the file asks for it. */
    method WithHistory(ghost c: map<string, int>, change: Change, config: StorjConfig.Config, ids: set<int>, authors: seq<string>)
      returns (reviewers: set<int>)
      requires Agrees(c, cache)
      modifies this
      ensures Agrees(old(cache), cache)
      ensures reviewers == Candidates(c, change, config, ids, authors)
      ensures change.owner !in reviewers
    {
      reviewers := ids - {change.owner};
      if |reviewers| < config.reviewerCount && config.useGitHistory {
        ghost var c1 := cache;
        reviewers := FromGit(change.owner, reviewers, authors, config.reviewerCount - Existing(change));
        TopUpAgrees(c, c1, change.owner, ids - {change.owner}, authors, config.reviewerCount - Existing(change));
      }
      CandidatesCases(c, change, config, ids, authors);
      CandidatesSpec(c, change, config, ids, authors);
    }

    /**
     * The ring part of `assign`: a ring over the candidates' account ids as
     * text, asked for `count` nodes for the change.
     */
    method Pick(candidates: set<int>, owner: int, key: string, count: nat) returns (chosen: seq<string>)
      requires owner !in candidates
      ensures exists ring :: CandidateRing(ring, hasher, candidates) && chosen == Selection(ring, key, count)
      ensures Distinct(chosen) && IntToString(owner) !in chosen
      ensures |chosen| <= count && |chosen| <= |candidates|
      ensures forall v :: v in chosen ==> exists id :: id in candidates && v == IntToString(id)
      ensures Collisionless(hasher) && (forall id :: id in candidates ==> key != Label(IntToString(id), 0)) ==>
        |chosen| == if count <= |candidates| then count else |candidates|
    {
      var order := ToSeq(candidates);
      var elements := seq(|order|, i requires 0 <= i < |order| => IntToString(order[i]));
      var ring := FromElements(hasher, elements);
      chosen := GetNodes(ring, key, count);
      SelectionShape(ring, key, count);
      OwnerNotNamed(order, elements, owner);
      NamedCandidates(order, elements, candidates);
      SubsetShorter(chosen, Dedup(elements));
      assert CandidateRing(ring, hasher, candidates);
      NamesDistinct(order, elements);
      SubsetShorter(elements, Dedup(elements));
      SubsetShorter(Dedup(elements), elements);
      assert Size(ring) == |candidates|;
      if Collisionless(hasher) && (forall id :: id in candidates ==> key != Label(IntToString(id), 0)) {
        CollisionlessSeparated(hasher, ring.weights);
        NeedleOffRing(ring, hasher, candidates, key);
        ScanReachesAll(ring, key);
      }
    }

    /**
     * `assign(change, revision)`: nothing when the branch has no CODEOWNERS
     * file; a file that does not parse or a team token that throws is a
     * failure; otherwise the reviewers put on the change, drawn from the
     * candidates by the ring, with the request size taken from `Count`.
     */
    method AssignReviewers(change: Change, files: set<string>, codeOwners: Option<seq<string>>, authors: seq<string>)
      returns (r: Result<Option<seq<string>>, string>)
      modifies this
      ensures Agrees(old(cache), cache)
      ensures codeOwners.None? ==> r == Success(None)
      ensures codeOwners.Some? && StorjConfig.EffectsOf(codeOwners.value).Failure? ==> r == Failure("parse")
      ensures codeOwners.Some? && StorjConfig.EffectsOf(codeOwners.value).Success? ==>
        var config := StorjConfig.ConfigOf(StorjConfig.EffectsOf(codeOwners.value).value);
        (r.Failure? <==> exists t :: t in AllOwners(config, files) && TokenThrows(t)) &&
        (r.Failure? ==> exists t :: t in AllOwners(config, files) && TokenThrows(t) && r.error == TokenError(t)) &&
        (r.Success? ==> r.value.Some?)
      ensures r.Success? && r.value.Some? ==>
        var chosen := r.value.value;
        codeOwners.Some? && StorjConfig.EffectsOf(codeOwners.value).Success? &&
        var config := StorjConfig.ConfigOf(StorjConfig.EffectsOf(codeOwners.value).value);
        var pool := Candidates(old(cache), change, config, IdsOf(old(cache), AllOwners(config, files)), authors);
        var missing := config.reviewerCount - Existing(change);
        Distinct(chosen) && IntToString(change.owner) !in chosen &&
        (forall v :: v in chosen ==> exists id :: id in pool && v == IntToString(id)) &&
        |chosen| <= (if missing < 0 then 0 else missing) && |chosen| <= |pool|
      ensures r.Success? && r.value.Some? ==>
        var chosen := r.value.value;
        codeOwners.Some? && StorjConfig.EffectsOf(codeOwners.value).Success? &&
        var config := StorjConfig.ConfigOf(StorjConfig.EffectsOf(codeOwners.value).value);
        var pool := Candidates(old(cache), change, config, IdsOf(old(cache), AllOwners(config, files)), authors);
        var missing := config.reviewerCount - Existing(change);
        (exists ring :: CandidateRing(ring, hasher, pool) && chosen == Selection(ring, change.id, Count(|pool|, missing))) &&
        (Collisionless(hasher) && (forall id :: id in pool ==> change.id != Label(IntToString(id), 0)) ==>
          |chosen| == Count(|pool|, missing))
    {
      if codeOwners.None? {
        return Success(None);
      }
      var parsed := StorjConfig.Parse(codeOwners.value);
      if parsed.Failure? {
        return Failure("parse");
      }
      var config := parsed.value;
      var reviewers := Gather(change, config, files, authors);
      if reviewers.Failure? {
        return Failure(reviewers.error);
      }
      var missing := config.reviewerCount - Existing(change);
      var chosen := Pick(reviewers.value, change.owner, change.id, Count(|reviewers.value|, missing));
      return Success(Some(chosen));
    }

    /** Answers that agree give the same top-up. */
    lemma {:induction false} TopUpAgrees(c1: map<string, int>, c2: map<string, int>, ownerId: int, accounts: set<int>, authors: seq<string>, required: int)
      requires Agrees(c1, c2)
      ensures TopUp(c2, ownerId, accounts, authors, required) == TopUp(c1, ownerId, accounts, authors, required)
      decreases |authors|
    {
      if !(required <= |accounts| || authors == []) {
        assert Resolve(c2, authors[0]) == Resolve(c1, authors[0]);
        TopUpAgrees(c1, c2, ownerId, accounts + AuthorId(c1, ownerId, authors[0]), authors[1..], required);
      }
    }

    /** An account left out of the candidates is not among their names. */
    lemma OwnerNotNamed(order: seq<int>, elements: seq<string>, owner: int)
      requires owner !in order && |elements| == |order|
      requires forall i :: 0 <= i < |order| ==> elements[i] == IntToString(order[i])
      ensures IntToString(owner) !in elements
    {
      forall i | 0 <= i < |elements|
        ensures elements[i] != IntToString(owner)
      {
        if elements[i] == IntToString(owner) {
          IntToStringInjective(order[i], owner);
        }
      }
    }

    /** Every name in the ring is the text of a candidate account. */
    lemma NamedCandidates(order: seq<int>, elements: seq<string>, candidates: set<int>)
      requires forall x :: x in order <==> x in candidates
      requires |elements| == |order| && forall i :: 0 <= i < |order| ==> elements[i] == IntToString(order[i])
      ensures forall v :: v in Dedup(elements) <==> exists id :: id in candidates && v == IntToString(id)
    {
      forall v | v in Dedup(elements)
        ensures exists id :: id in candidates && v == IntToString(id)
      {
        var i :| 0 <= i < |elements| && elements[i] == v;
        assert order[i] in candidates;
      }
      forall id | id in candidates
        ensures IntToString(id) in Dedup(elements)
      {
        var i :| 0 <= i < |order| && order[i] == id;
        assert elements[i] == IntToString(id);
      }
    }

    /** Different accounts have different names, so the names of a duplicate-free list of accounts are duplicate-free. */
    lemma NamesDistinct(order: seq<int>, elements: seq<string>)
      requires forall i, j :: 0 <= i < j < |order| ==> order[i] != order[j]
      requires |elements| == |order| && forall i :: 0 <= i < |order| ==> elements[i] == IntToString(order[i])
      ensures Distinct(elements)
    {
      forall i, j | 0 <= i < j < |elements|
        ensures elements[i] != elements[j]
      {
        if elements[i] == elements[j] {
          IntToStringInjective(order[i], order[j]);
        }
      }
    }
  }
}
