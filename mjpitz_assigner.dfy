/**
 * `com.mjpitz.gerrit.plugins.codeowners.ReviewAssigner`: resolves the owner
 * tokens of the changed files to Gerrit account ids through a memoising
 * cache, adds each one to a hash ring as a node of weight 1, tops the ring up
 * from the authors of the files' history, and asks the ring for the missing
 * reviewers of a change.
 *
 * Gerrit's account query, the GitHub team lookup, the path matcher, the
 * hasher and the history walk are parameters: oracles held by the class, and
 * the author e-mails of the log in order.
 */
module MjpitzAssigner {
  import opened Wrappers
  import opened JavaStrings
  import opened LinkedSets
  import opened HashRings
  import opened MjpitzRing
  import opened CodeOwnersSyntax
  import MjpitzConfig

  datatype ReviewerState = Reviewer | Cc | Removed

  /** The parts of `ChangeInfo` the plugin reads; `null` fields are `None`. */
  datatype Change = Change(
    id: string,
    reviewers: Option<map<ReviewerState, seq<int>>>,
    workInProgress: Option<bool>,
    isPrivate: Option<bool>)

  /**
   * `github.getOrganization(org).getTeamByName(team).getMembers()`: a lookup
   * that throws, a team that is not there (`null`), or the members' logins
   * in the order the plugin visits them (sorted by login).
   */
  datatype TeamLookup = LookupThrows | NoTeam | Team(logins: seq<string>)

  /** Where `fromCodeOwners` sends an owner token. */
  datatype Route =
    | ByEmail(address: string)
    | ByUsername(name: string)
    | ByTeam(org: string, team: string)

  /** A token without `@` is an e-mail, `@name` a user, `@org/team` a team. */
  function RouteOf(token: string): Route
  {
    var split := IndexOf(token, '/');
    if !StartsWith(token, "@") then ByEmail(token)
    else if split == -1 then ByUsername(token[1..])
    else ByTeam(token[1..split], token[split + 1..])
  }

  /** The routes partition the tokens, and each token is rebuilt from the names its route holds. */
  lemma RouteCases(token: string)
    ensures RouteOf(token).ByEmail? <==> |token| == 0 || token[0] != '@'
    ensures RouteOf(token).ByUsername? <==> |token| > 0 && token[0] == '@' && '/' !in token
    ensures RouteOf(token).ByUsername? ==> token == "@" + RouteOf(token).name
    ensures RouteOf(token).ByTeam? ==>
      var r := RouteOf(token);
      token == "@" + r.org + "/" + r.team && '/' !in r.org
  {
    var split := IndexOf(token, '/');
    if |token| > 0 && token[0] == '@' {
      assert StartsWith(token, "@");
      if split == -1 {
        assert token == "@" + token[1..];
      } else {
        assert token == "@" + token[1..split] + "/" + token[split + 1..];
      }
    }
  }

  function UsernameKey(name: string): string
  {
    "username:" + name
  }

  function EmailKey(address: string): string
  {
    "email:" + address
  }

  /** An answer as a set: the account when there is one. */
  function Found(o: Option<string>): set<string>
  {
    if o.Some? then {o.value} else {}
  }

  /** The reviewers a change already has: its REVIEWER-state accounts. */
  function Existing(reviewers: map<ReviewerState, seq<int>>): nat
  {
    if Reviewer in reviewers then |reviewers[Reviewer]| else 0
  }

  /** `config.reviewerCount - change.reviewers.size()`, as written: the size of the map counts reviewer states. */
  function MissingAsWritten(reviewerCount: int, reviewers: map<ReviewerState, seq<int>>): int
  {
    reviewerCount - |reviewers|
  }

  /** The number of reviewers the change lacks, counting the reviewers themselves. */
  function Missing(reviewerCount: int, reviewers: map<ReviewerState, seq<int>>): int
  {
    reviewerCount - Existing(reviewers)
  }

  /**
   * A map entry stands for a whole state, so a change with three reviewers
   * counts as having one: with a reviewer count of 2 the code as written
   * still asks for one more reviewer.
   */
  lemma ReviewerStatesCounted(reviewers: map<ReviewerState, seq<int>>)
    requires reviewers == map[Reviewer := [1, 2, 3]]
    ensures MissingAsWritten(2, reviewers) == 1
    ensures Existing(reviewers) == 3 && Existing(reviewers) + MissingAsWritten(2, reviewers) > 2
    ensures Missing(2, reviewers) == -1
  {
    assert reviewers.Keys == {Reviewer};
  }

  /** `Math.min(a, b)`. */
  function Min(a: int, b: int): (m: int)
    ensures m <= a && m <= b && (m == a || m == b)
  {
    if a <= b then a else b
  }

  /**
   * Requesting `min(candidates, missing)` reviewers, with `missing` counted
   * from the reviewers themselves, never takes the change past the reviewer
   * count, and reaches it whenever there are candidates enough.
   */
  lemma RequestFillsUp(reviewerCount: int, reviewers: map<ReviewerState, seq<int>>, candidates: nat)
    requires Missing(reviewerCount, reviewers) > 0
    ensures Existing(reviewers) + Min(candidates, Missing(reviewerCount, reviewers)) <= reviewerCount
    ensures candidates >= Missing(reviewerCount, reviewers) ==>
      Existing(reviewers) + Min(candidates, Missing(reviewerCount, reviewers)) == reviewerCount
  {
  }

  /** What a Gerrit event makes the plugin do. */
  datatype Action = Unassign | Assign

  function Flag(b: Option<bool>): bool
  {
    b == Some(true)
  }

  /** `onWorkInProgressStateChanged`: a WIP or private change loses its reviewers, any other gets them. */
  function OnWorkInProgressStateChanged(change: Change): (a: Action)
    ensures a == Assign <==> change.workInProgress != Some(true) && change.isPrivate != Some(true)
  {
    if Flag(change.workInProgress) || Flag(change.isPrivate) then Unassign else Assign
  }

  /** The plugin's state: the account cache, plus the services it calls, as oracles. */
  class Assigner {
    /** `[username:|email:]name -> gerritAccountId`, the id kept as its decimal text. */
    var cache: map<string, string>
    /** `gerrit.accounts().query(k).get()`: the accounts found, or `None` when it throws. */
    const query: string -> Option<seq<int>>
    const teams: (string, string) -> TeamLookup
    /** `FastIgnoreRule(pattern).isMatch(path, false)`. */
    const matches: (string, string) -> bool
    const hasher: string -> string

    constructor(query: string -> Option<seq<int>>, teams: (string, string) -> TeamLookup,
                matches: (string, string) -> bool, hasher: string -> string)
      ensures this.query == query && this.teams == teams && this.matches == matches
      ensures this.hasher == hasher && cache == map[]
    {
      this.query := query;
      this.teams := teams;
      this.matches := matches;
      this.hasher := hasher;
      cache := map[];
    }

    /** `loader` on an absent key: the first account found, as text; `null` when none is found or the query throws. */
    function Load(k: string): (r: Option<string>)
      ensures r.Some? <==> query(k).Some? && |query(k).value| > 0
      ensures r.Some? ==> r.value == IntToString(query(k).value[0])
    {
      match query(k)
      case None => None
      case Some(ids) => if |ids| > 0 then Some(IntToString(ids[0])) else None
    }

    /** What `cache.compute(k, loader)` answers over cache `c`. */
    function Resolve(c: map<string, string>, k: string): Option<string>
    {
      if k in c then Some(c[k]) else Load(k)
    }

    /** The cache `cache.compute(k, loader)` leaves behind: a `null` result stores nothing. */
    function Store(c: map<string, string>, k: string): map<string, string>
    {
      if k in c then c
      else match Load(k)
        case None => c
        case Some(id) => c[k := id]
    }

    /**
     * The cache keeps every answer it held and gains only the key just
     * resolved, and only when it resolved.
     */
    lemma StoreKeepsAnswers(c: map<string, string>, k: string)
      ensures forall k' :: Resolve(Store(c, k), k') == Resolve(c, k')
      ensures Store(c, k).Keys == c.Keys + (if Resolve(c, k).Some? then {k} else {})
      ensures forall k' :: k' in c ==> Store(c, k)[k'] == c[k']
    {
    }

    /** `c2` holds every key of `c1` and gives the same answer as `c1` for every key. */
    ghost predicate Agrees(c1: map<string, string>, c2: map<string, string>)
    {
      c1.Keys <= c2.Keys && forall k :: Resolve(c2, k) == Resolve(c1, k)
    }

    /** `cache.compute(k, loader)`. */
    method Lookup(k: string) returns (id: Option<string>)
      modifies this
      ensures id == Resolve(old(cache), k) && cache == Store(old(cache), k)
      ensures Agrees(old(cache), cache)
    {
      StoreKeepsAnswers(cache, k);
      if k in cache {
        return Some(cache[k]);
      }
      id := Load(k);
      if id.Some? {
        cache := cache[k := id.value];
      }
    }

    /** The accounts of a team's members, each looked up under its `username:` key. */
    function LoginNames(c: map<string, string>, logins: seq<string>): set<string>
    {
      set l | l in logins && Resolve(c, UsernameKey(l)).Some? :: Resolve(c, UsernameKey(l)).value
    }

    /** The token is a team whose lookup throws or finds no team: `fromCodeOwners` throws there. */
    predicate TeamFails(token: string)
    {
      RouteOf(token).ByTeam? && !teams(RouteOf(token).org, RouteOf(token).team).Team?
    }

    /** The accounts one owner token contributes. */
    function TokenNames(c: map<string, string>, token: string): set<string>
    {
      var route := RouteOf(token);
      if route.ByEmail? then Found(Resolve(c, EmailKey(route.address)))
      else if route.ByUsername? then Found(Resolve(c, UsernameKey(route.name)))
      else TeamNames(c, teams(route.org, route.team))
    }

    /** The accounts of a team's members; a failed lookup gives none. */
    function TeamNames(c: map<string, string>, lookup: TeamLookup): set<string>
    {
      if lookup.Team? then LoginNames(c, lookup.logins) else {}
    }

    /** The accounts a set of owner tokens contributes. */
    function NamesOf(c: map<string, string>, tokens: set<string>): set<string>
    {
      set t, n | t in tokens && n in TokenNames(c, t) :: n
    }

    /** The owner tokens of every changed file, unioned before any of them is resolved. */
    function AllOwners(config: MjpitzConfig.Config, files: set<string>): set<string>
    {
      set p, o | p in files && o in MjpitzConfig.LastOwners(config.rules, matches, p) :: o
    }

    /** Answers that agree give the same accounts for a token. */
    lemma TokenNamesAgree(c1: map<string, string>, c2: map<string, string>, token: string)
      requires Agrees(c1, c2)
      ensures TokenNames(c2, token) == TokenNames(c1, token)
    {
      var route := RouteOf(token);
      if route.ByEmail? {
        assert Resolve(c2, EmailKey(route.address)) == Resolve(c1, EmailKey(route.address));
      } else if route.ByUsername? {
        assert Resolve(c2, UsernameKey(route.name)) == Resolve(c1, UsernameKey(route.name));
      } else if teams(route.org, route.team).Team? {
        LoginNamesAgree(c1, c2, teams(route.org, route.team).logins);
      }
    }

    lemma LoginNamesAgree(c1: map<string, string>, c2: map<string, string>, logins: seq<string>)
      requires Agrees(c1, c2)
      ensures LoginNames(c2, logins) == LoginNames(c1, logins)
    {
      forall l | l in logins
        ensures Resolve(c2, UsernameKey(l)) == Resolve(c1, UsernameKey(l))
      {
      }
    }

    lemma LoginNamesSnoc(c: map<string, string>, logins: seq<string>, l: string)
      ensures LoginNames(c, logins + [l]) == LoginNames(c, logins) + Found(Resolve(c, UsernameKey(l)))
    {
      var ls := logins + [l];
      assert forall x :: x in ls <==> x in logins || x == l;
    }

    lemma NamesOfAdd(c: map<string, string>, tokens: set<string>, t: string)
      ensures NamesOf(c, tokens + {t}) == NamesOf(c, tokens) + TokenNames(c, t)
    {
      forall n | n in NamesOf(c, tokens + {t})
        ensures n in NamesOf(c, tokens) + TokenNames(c, t)
      {
        var u :| u in tokens + {t} && n in TokenNames(c, u);
      }
      forall n | n in TokenNames(c, t)
        ensures n in NamesOf(c, tokens + {t})
      {
        assert t in tokens + {t};
      }
    }

    /**
     * A ring as `fromCodeOwners` and `fromGit` build it: made by `make()`,
     * over this plugin's hasher, every node of weight 1, and its nodes
     * exactly the accounts `names`.
     */
    ghost predicate Holds(r: HashRing, names: set<string>)
    {
      Valid(r) && r.hasher == hasher &&
      UnitWeights(r.weights) &&
      forall n :: n in Nodes(r.weights) <==> n in names
    }

    /**
     * Over a hasher without collisions, two rings holding the same accounts
     * choose the same reviewers for a change, whatever order the owner
     * tokens and the history added them in.
     */
    lemma SameNamesSameChoice(a: HashRing, b: HashRing, names: set<string>, key: string, size: int)
      requires Collisionless(hasher) && Holds(a, names) && Holds(b, names)
      ensures SelectionWrapped(a, key, size) == SelectionWrapped(b, key, size)
    {
      CollisionlessSeparated(hasher, a.weights);
      CollisionlessSeparated(hasher, b.weights);
      SameNodesSameChoice(a, b, key, size);
    }

    /** The ring has one node per account. */
    lemma HoldsSize(r: HashRing, names: set<string>)
      requires Holds(r, names)
      ensures Size(r) == |names|
    {
      DistinctCard(Nodes(r.weights));
      assert (set x | x in Nodes(r.weights)) == names;
    }

    /** `if (username != null) possibleReviewers = possibleReviewers.withNode(username)`. */
    method AddNode(r: HashRing, ghost names: set<string>, name: Option<string>) returns (r': HashRing)
      requires Holds(r, names)
      ensures Holds(r', names + Found(name))
      ensures name.Some? ==> Size(r') == Size(r) + (if name.value in names then 0 else 1)
      ensures name.None? ==> r' == r
    {
      if name.None? {
        assert names + Found(name) == names;
        return r;
      }
      r' := WithNode(r, name.value);
      PutWeightNodes(r.weights, name.value, 1);
      PutUnit(r.weights, name.value);
    }

    /** The team branch of `fromCodeOwners`: every member that resolves becomes a node. */
    method AddLogins(r: HashRing, ghost names: set<string>, logins: seq<string>) returns (r': HashRing)
      requires Holds(r, names)
      modifies this
      ensures Holds(r', names + LoginNames(old(cache), logins))
      ensures Agrees(old(cache), cache)
    {
      ghost var c0 := cache;
      r' := r;
      for i := 0 to |logins|
        invariant Agrees(c0, cache)
        invariant Holds(r', names + LoginNames(c0, logins[..i]))
      {
        ghost var current := names + LoginNames(c0, logins[..i]);
        assert logins[..i + 1] == logins[..i] + [logins[i]];
        LoginNamesSnoc(c0, logins[..i], logins[i]);
        assert Resolve(cache, UsernameKey(logins[i])) == Resolve(c0, UsernameKey(logins[i]));
        var id := Lookup(UsernameKey(logins[i]));
        assert current + Found(id) == names + LoginNames(c0, logins[..i + 1]);
        r' := AddNode(r', current, id);
      }
      assert logins[..|logins|] == logins;
    }

    /** One owner token of `fromCodeOwners`, which must not be a failing team. */
    method AddToken(r: HashRing, ghost names: set<string>, token: string) returns (r': HashRing)
      requires Holds(r, names) && !TeamFails(token)
      modifies this
      ensures Holds(r', names + TokenNames(old(cache), token))
      ensures Agrees(old(cache), cache)
    {
      match RouteOf(token)
      case ByEmail(address) =>
        var id := Lookup(EmailKey(address));
        r' := AddNode(r, names, id);
      case ByUsername(name) =>
        var id := Lookup(UsernameKey(name));
        r' := AddNode(r, names, id);
      case ByTeam(org, team) =>
        r' := AddLogins(r, names, teams(org, team).logins);
    }

    /** The owner tokens of the changed files: `ownersFor` of each, unioned. */
    method OwnersOf(config: MjpitzConfig.Config, files: set<string>) returns (owners: set<string>)
      ensures owners == AllOwners(config, files)
    {
      owners := {};
      var rest := files;
      while rest != {}
        invariant rest <= files
        invariant owners == AllOwners(config, files - rest)
        decreases |rest|
      {
        var p :| p in rest;
        var found := MjpitzConfig.OwnersFor(config, matches, p);
        AllOwnersAdd(config, files - rest, p);
        owners := owners + found;
        assert files - (rest - {p}) == (files - rest) + {p};
        rest := rest - {p};
      }
    }

    /** Taking one more file in adds exactly that file's owners. */
    lemma AllOwnersAdd(config: MjpitzConfig.Config, done: set<string>, p: string)
      ensures AllOwners(config, done + {p}) == AllOwners(config, done) + MjpitzConfig.LastOwners(config.rules, matches, p)
    {
    }

    /**
     * `fromCodeOwners(config, revision)`: a ring whose nodes are the accounts
     * of all owner tokens; a team whose lookup throws or finds nothing makes
     * the whole call throw.
     */
    method FromCodeOwners(config: MjpitzConfig.Config, files: set<string>) returns (r: Result<HashRing, string>)
      modifies this
      ensures Agrees(old(cache), cache)
      ensures r.Failure? <==> exists t :: t in AllOwners(config, files) && TeamFails(t)
      ensures r.Failure? ==> r.error == "IOException" || r.error == "NullPointerException"
      ensures r.Success? ==> Holds(r.value, NamesOf(old(cache), AllOwners(config, files)))
    {
      var owners := OwnersOf(config, files);
      r := RingOf(owners);
    }

    /** The loop of `fromCodeOwners` over the owner tokens, each resolved through the cache and added to the ring. */
    method RingOf(owners: set<string>) returns (r: Result<HashRing, string>)
      modifies this
      ensures Agrees(old(cache), cache)
      ensures r.Failure? <==> exists t :: t in owners && TeamFails(t)
      ensures r.Failure? ==> r.error == "IOException" || r.error == "NullPointerException"
      ensures r.Success? ==> Holds(r.value, NamesOf(old(cache), owners))
    {
      ghost var c0 := cache;
      var ring := Empty(hasher);
      var todo := owners;
      ghost var done: set<string> := {};
      assert NamesOf(c0, done) == {};
      while todo != {}
        invariant done + todo == owners && Agrees(c0, cache)
        invariant forall t :: t in done ==> !TeamFails(t)
        invariant Holds(ring, NamesOf(c0, done))
        decreases |todo|
      {
        var t :| t in todo;
        if RouteOf(t).ByTeam? {
          match teams(RouteOf(t).org, RouteOf(t).team)
          case LookupThrows =>
            return Failure("IOException");
          case NoTeam =>
            return Failure("NullPointerException");
          case Team(_) =>
        }
        TokenNamesAgree(c0, cache, t);
        NamesOfAdd(c0, done, t);
        ring := AddToken(ring, NamesOf(c0, done), t);
        todo, done := todo - {t}, done + {t};
      }
      return Success(ring);
    }

    /** The accounts of all the authors, each looked up under its bare e-mail. */
    function AuthorNames(c: map<string, string>, authors: seq<string>): set<string>
    {
      set e, n | e in authors && n in Found(Resolve(c, e)) :: n
    }

    /** What `fromGit` leaves in the ring: authors are added until it holds `required` nodes. */
    function TopUp(c: map<string, string>, names: set<string>, authors: seq<string>, required: int): set<string>
      decreases |authors|
    {
      if required <= |names| || authors == [] then names
      else TopUp(c, names + Found(Resolve(c, authors[0])), authors[1..], required)
    }

    /**
     * `fromGit` only adds, only adds authors, and stops short of the whole
     * history only once the ring is large enough.
     */
    lemma {:induction false} TopUpSpec(c: map<string, string>, names: set<string>, authors: seq<string>, required: int)
      ensures names <= TopUp(c, names, authors, required)
      ensures TopUp(c, names, authors, required) <= names + AuthorNames(c, authors)
      ensures required <= |TopUp(c, names, authors, required)| ||
              TopUp(c, names, authors, required) == names + AuthorNames(c, authors)
      decreases |authors|
    {
      if !(required <= |names| || authors == []) {
        var next := names + Found(Resolve(c, authors[0]));
        TopUpSpec(c, next, authors[1..], required);
        AuthorNamesCons(c, authors);
      } else if authors == [] {
        assert AuthorNames(c, authors) == {};
      }
    }

    lemma AuthorNamesCons(c: map<string, string>, authors: seq<string>)
      requires authors != []
      ensures AuthorNames(c, authors) == Found(Resolve(c, authors[0])) + AuthorNames(c, authors[1..])
    {
      assert authors == [authors[0]] + authors[1..];
    }

    /** `fromGit(possibleReviewers, repo, revision, reviewerCount)`, the log given as its author e-mails. */
    method FromGit(r: HashRing, ghost names: set<string>, authors: seq<string>, reviewerCount: int) returns (r': HashRing)
      requires Holds(r, names)
      modifies this
      ensures Holds(r', TopUp(old(cache), names, authors, reviewerCount))
      ensures Agrees(old(cache), cache)
    {
      ghost var c0 := cache;
      ghost var current := names;
      r' := r;
      var i := 0;
      HoldsSize(r', current);
      while Size(r') < reviewerCount && i < |authors|
        invariant 0 <= i <= |authors| && Agrees(c0, cache)
        invariant Holds(r', current) && Size(r') == |current|
        invariant TopUp(c0, current, authors[i..], reviewerCount) == TopUp(c0, names, authors, reviewerCount)
        decreases |authors| - i
      {
        assert authors[i..][1..] == authors[i + 1..];
        var id := Lookup(authors[i]);
        r' := AddNode(r', current, id);
        current := current + Found(id);
        HoldsSize(r', current);
        i := i + 1;
      }
    }

    /**
     * `assign(change, revision)`, with the missing-reviewer count taken from
     * the REVIEWER-state accounts and the lookup that wraps around an empty
     * tail: `None` when the change has enough reviewers, otherwise the
     * reviewers put on it. A branch without a CODEOWNERS file, a file that
     * does not parse, a failing team and a change without a reviewer map are
     * failures.
     */
    method AssignReviewers(change: Change, files: set<string>, codeOwners: Option<seq<string>>, authors: seq<string>)
      returns (r: Result<Option<seq<string>>, string>)
      requires Collisionless(hasher)
      modifies this
      ensures Agrees(old(cache), cache)
      ensures codeOwners.None? ==> r == Failure("NullPointerException")
      ensures r.Success? ==>
        codeOwners.Some? && MjpitzConfig.EffectsOf(codeOwners.value).Success? && change.reviewers.Some? &&
        var config := MjpitzConfig.ConfigOf(MjpitzConfig.EffectsOf(codeOwners.value).value);
        var missing := Missing(config.reviewerCount, change.reviewers.value);
        var owners := NamesOf(old(cache), AllOwners(config, files));
        var pool := if |owners| < missing then TopUp(old(cache), owners, authors, missing) else owners;
        !(exists t :: t in AllOwners(config, files) && TeamFails(t)) &&
        (r.value.None? <==> missing <= 0) &&
        (r.value.Some? ==>
          Distinct(r.value.value) &&
          |r.value.value| == Min(|pool|, missing) &&
          Existing(change.reviewers.value) + |r.value.value| <= config.reviewerCount &&
          (forall v :: v in r.value.value ==> v in pool) &&
          exists ring :: Holds(ring, pool) && r.value.value == SelectionWrapped(ring, change.id, Min(|pool|, missing)))
      ensures r.Failure? && codeOwners.Some? && MjpitzConfig.EffectsOf(codeOwners.value).Success? ==>
        var config := MjpitzConfig.ConfigOf(MjpitzConfig.EffectsOf(codeOwners.value).value);
        change.reviewers.None? || exists t :: t in AllOwners(config, files) && TeamFails(t)
    {
      if codeOwners.None? {
        return Failure("NullPointerException");
      }
      var parsed := MjpitzConfig.Parse(codeOwners.value);
      if parsed.Failure? {
        return Failure("parse");
      }
      var config := parsed.value;
      ghost var c0 := cache;
      ghost var owners := NamesOf(c0, AllOwners(config, files));
      var found := FromCodeOwners(config, files);
      if found.Failure? {
        return Failure(found.error);
      }
      var ring := found.value;
      if change.reviewers.None? {
        return Failure("NullPointerException");
      }
      var missing := Missing(config.reviewerCount, change.reviewers.value);
      if missing <= 0 {
        return Success(None);
      }
      ghost var pool := owners;
      HoldsSize(ring, owners);
      if Size(ring) < missing {
        ghost var c1 := cache;
        ring := FromGit(ring, owners, authors, missing);
        pool := TopUp(c0, owners, authors, missing);
        assert TopUp(c1, owners, authors, missing) == pool by {
          TopUpAgrees(c0, c1, owners, authors, missing);
        }
      }
      HoldsSize(ring, pool);
      var numberToAssign := Min(Size(ring), missing);
      CollisionlessSeparated(hasher, ring.weights);
      WrappedSelectionFull(ring, change.id, numberToAssign);
      var chosen := GetNodesWrapped(ring, change.id, numberToAssign);
      RequestFillsUp(config.reviewerCount, change.reviewers.value, Size(ring));
      return Success(Some(chosen));
    }

    /** Answers that agree give the same top-up. */
    lemma {:induction false} TopUpAgrees(c1: map<string, string>, c2: map<string, string>, names: set<string>, authors: seq<string>, required: int)
      requires Agrees(c1, c2)
      ensures TopUp(c2, names, authors, required) == TopUp(c1, names, authors, required)
      decreases |authors|
    {
      if !(required <= |names| || authors == []) {
        assert Resolve(c2, authors[0]) == Resolve(c1, authors[0]);
        TopUpAgrees(c1, c2, names + Found(Resolve(c1, authors[0])), authors[1..], required);
      }
    }
  }
}
