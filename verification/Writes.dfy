/** Every command that writes leaves the nodes balanced, and no other command moves anything. */
module Writes {
  import opened Bytes
  import opened Tables
  import opened Balance
  import opened BalanceLaws
  import opened Limits
  import opened Clusters
  import opened ClusterLaws
  import opened Refinement
  import opened Seed

  predicate IsWrite(cmd: Command) {
    cmd.PutCmd? || (cmd.DelCmd? && cmd.key != [])
  }

  lemma ReBalanceBalances(c: Cluster)
    requires Inv(c)
    ensures Shaped(c) && Balanced(ReBalance(c).nodes)
  {
    hide Inv, ReBalance, Settle, Balanced;
    ReBalanceRefines(c);
    InvNotEmpty(c);
    SettleBalances(c.nodes);
  }

  lemma InvNotEmpty(c: Cluster)
    requires Inv(c)
    ensures c.nodes != []
  {
  }

  /** A put, and a del of a present or absent key, leaves the nodes balanced whatever they were before; a
      get, and a del of the empty word, leaves directory and data alone. */
  lemma WriteBalances(c: Cluster, cmd: Command)
    requires Inv(c) && CommandFits(cmd)
    ensures Shaped(c)
    ensures IsWrite(cmd) ==> Balanced(Execute(c, cmd).nodes)
    ensures !IsWrite(cmd) ==> Execute(c, cmd) == c
  {
    hide Inv, Shaped, Balanced, ReBalance, PutStep, DeleteStep;
    InvShaped(c);
    match cmd
    case PutCmd(k, v) =>
      PutKeepsInv(c, k, v);
      ReBalanceBalances(PutStep(c, k, v));
    case GetCmd(_) =>
    case DelCmd(k) =>
      if k != [] {
        DeleteKeepsInv(c, k);
        ReBalanceBalances(DeleteStep(c, k));
      }
  }

  /** Over any run: nodes that start out balanced stay so between commands, and one write in the run is
      enough to have them balanced at its end. */
  lemma {:induction false} RunBalances(c: Cluster, cmds: seq<Command>)
    requires Inv(c) && forall i :: 0 <= i < |cmds| ==> CommandFits(cmds[i])
    ensures Shaped(c)
    ensures Balanced(c.nodes) || (exists i :: 0 <= i < |cmds| && IsWrite(cmds[i])) ==> Balanced(After(c, cmds).nodes)
    decreases cmds
  {
    hide Inv, Shaped, Balanced, Execute, CommandFits, IsWrite;
    InvShaped(c);
    if cmds != [] {
      StepRefines(c, cmds[0]);
      WriteBalances(c, cmds[0]);
      RunBalances(Execute(c, cmds[0]), cmds[1..]);
      if i :| 0 < i < |cmds| && IsWrite(cmds[i]) {
        assert IsWrite(cmds[1..][i - 1]);
      }
    }
  }

  /** A fresh cluster is balanced: nothing is stored. */
  lemma StartBalanced(n: nat)
    requires n >= 1
    ensures Balanced(Start(n).nodes)
  {
    assert Recut(Start(n).nodes, Start(n).nodes);
  }
}
