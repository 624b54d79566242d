// The server stopped and started again: both registries come back from their files, everything else starts afresh.

module Restarts {
  import opened Base
  import opened Server
  import opened Identity
  import opened WireView
  import opened Runs
  import Auth
  import Nodes
  import Liveness
  import MacText
  import Theorems
  import Wire

  /** What the new server starts with; the wire still holds what the nodes were told before. */
  function Restarted(s: State, nodeOrder: seq<string>, authOrder: seq<string>): State
    requires IsOrder(nodeOrder, s.nodes.Keys) && IsOrder(authOrder, s.auth.Keys)
  {
    INITIAL.(auth := Auth.LoadAll(map[], Auth.Entries(s.auth, authOrder)),
             nodes := Nodes.LoadAll(map[], Nodes.Entries(s.nodes, nodeOrder)),
             wire := s.wire)
  }

  /** Cutting times to seconds changes nobody's key. */
  lemma TruncatedVerdicts(am: Auth.AuthMap, ns: Nodes.NodeMap, wire: seq<Wire.MeshMessage>)
    requires Agrees(am, ns, wire)
    ensures Agrees(Auth.TruncatedAll(am), ns, wire)
  {
    hide LastVerdict, IDAgrees, Auth.ApprovedKey, Auth.TruncatedAll;
    forall mac: Mac
      ensures VerdictAgrees(Auth.TruncatedAll(am), wire, mac) && IDAgrees(ns, wire, mac)
    {
      assert VerdictAgrees(am, wire, mac) && IDAgrees(ns, wire, mac);
      TruncatedKey(am, mac);
    }
  }

  /** A restart gives back both registries, and keeps them consistent with what was sent before it. */
  lemma RestartInvariant(c: Config, s: State, nodeOrder: seq<string>, authOrder: seq<string>)
    requires Invariant(c, s) && IsOrder(nodeOrder, s.nodes.Keys) && IsOrder(authOrder, s.auth.Keys)
    ensures var s' := Restarted(s, nodeOrder, authOrder);
      Invariant(c, s') && s'.nodes == s.nodes && s'.auth == Auth.TruncatedAll(s.auth)
  {
    hide Nodes.LoadAll, Nodes.Entries, Auth.LoadAll, Auth.Entries, Auth.TruncatedAll, Auth.Canonical, Nodes.Canonical,
         Agrees, AcksAccounted, Liveness.AllInStep, ReplaySpaced, AllOutbound, Nodes.UniqueOwner;
    InitialInvariant(c);
    Nodes.PersistRoundTrip(s.nodes, nodeOrder);
    Auth.PersistRoundTrip(s.auth, authOrder, authOrder);
    if c.attached {
      TruncatedVerdicts(s.auth, s.nodes, s.wire);
    }
  }

  /** One life of the server: a run, and the orders in which its registries are written at the end. */
  datatype Life = Life(steps: seq<Step>, nodeOrder: seq<string>, authOrder: seq<string>)

  ghost predicate CanLive(c: Config, s: State, life: Life)
  {
    && CanRun(c, s, life.steps)
    && IsOrder(life.nodeOrder, Run(c, s, life.steps).nodes.Keys)
    && IsOrder(life.authOrder, Run(c, s, life.steps).auth.Keys)
  }

  function After(c: Config, s: State, life: Life): State
    requires CanLive(c, s, life)
  {
    Restarted(Run(c, s, life.steps), life.nodeOrder, life.authOrder)
  }

  ghost predicate CanSurvive(c: Config, s: State, lives: seq<Life>)
    decreases lives
  {
    lives == [] || (CanLive(c, s, lives[0]) && CanSurvive(c, After(c, s, lives[0]), lives[1..]))
  }

  function Survive(c: Config, s: State, lives: seq<Life>): State
    requires CanSurvive(c, s, lives)
    decreases lives
  {
    if lives == [] then s else Survive(c, After(c, s, lives[0]), lives[1..])
  }

  lemma {:induction false} SurviveInvariant(c: Config, s: State, lives: seq<Life>)
    requires Invariant(c, s) && CanSurvive(c, s, lives)
    ensures Invariant(c, Survive(c, s, lives))
    decreases lives
  {
    hide Invariant, CanRun, Run, Restarted;
    if lives == [] {
    } else {
      var life := lives[0];
      RunInvariant(c, s, life.steps);
      RestartInvariant(c, Run(c, s, life.steps), life.nodeOrder, life.authOrder);
      SurviveInvariant(c, After(c, s, life), lives[1..]);
    }
  }

  /**
   * After any number of restarts and any further run, every node's last verdict and last ID on the wire, from whichever
   * life, are those of the registries; IDs are uniquely owned; transitions and acknowledgements published since the
   * last start are in step with its flags and commands.
   */
  lemma RegistriesAgreeAcrossRestarts(c: Config, lives: seq<Life>, steps: seq<Step>)
    requires CanSurvive(c, INITIAL, lives) && CanRun(c, Survive(c, INITIAL, lives), steps)
    ensures var s := Run(c, Survive(c, INITIAL, lives), steps);
      && (c.attached ==> Agrees(s.auth, s.nodes, s.wire))
      && Auth.Canonical(s.auth) && Consistent(s.nodes)
      && Liveness.AllInStep(s.live) && AcksAccounted(s.commands, s.live.events)
  {
    hide CanSurvive, Survive, CanRun, Run, Agrees, Auth.Canonical, Consistent, Liveness.AllInStep, AcksAccounted;
    InitialInvariant(c);
    SurviveInvariant(c, INITIAL, lives);
    RunInvariant(c, Survive(c, INITIAL, lives), steps);
  }

  /** An approved key outlives restarts: until the node is rejected it stays the node's key. */
  lemma {:induction false} ApprovedKeySurvives(c: Config, s: State, lives: seq<Life>, mac: Mac, key: Key)
    requires Invariant(c, s) && CanSurvive(c, s, lives) && Auth.ApprovedKey(s.auth, mac) == Some(key)
    requires forall life :: life in lives ==> Theorems.NeverRejects(life.steps, mac)
    ensures Auth.ApprovedKey(Survive(c, s, lives).auth, mac) == Some(key)
    decreases lives
  {
    hide Invariant, CanRun, Run, Restarted, Auth.ApprovedKey, Theorems.NeverRejects;
    if lives == [] {
    } else {
      var life := lives[0];
      assert life in lives;
      var s1 := Run(c, s, life.steps);
      RunInvariant(c, s, life.steps);
      Theorems.ApprovedKeyPersists(c, s, life.steps, mac, key);
      RestartInvariant(c, s1, life.nodeOrder, life.authOrder);
      TruncatedKey(s1.auth, mac);
      ApprovedKeySurvives(c, After(c, s, life), lives[1..], mac, key);
    }
  }

  lemma TruncatedKey(am: Auth.AuthMap, mac: Mac)
    ensures Auth.ApprovedKey(Auth.TruncatedAll(am), mac) == Auth.ApprovedKey(am, mac)
  {
    hide MacText.Colon, Auth.FromUnix, Auth.Unix;
  }
}
