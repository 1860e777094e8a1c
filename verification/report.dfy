/** The running report: `log`, the logging half of `updateHtmlandLog`, and the
    report as it stands after a sequence of processed files. */
module Report {
  import opened Seqs

  /** The report record `{ success, fail }` of processed file paths. */
  datatype Log = Log(success: seq<string>, fail: seq<string>)

  /** The report at the start of a run. */
  const EmptyLog: Log := Log([], [])

  /** What the patcher hands over: JavaScript `null` or a string. */
  datatype Content = Null | Str(s: string)

  /** JavaScript truthiness of such a value: `null` and `""` are falsy. */
  predicate Truthy(c: Content) {
    c.Str? && c.s != ""
  }

  /** One processed file: its path and the content the patcher returned for it. */
  datatype Outcome = Outcome(path: string, content: Content)

  /** Records one processed path: on truthy content it goes to `success`
      (after the file has been written), otherwise to `fail`. Exactly one list
      grows, by exactly this path at its end; the other stays as it was. */
  function UpdateHtmlAndLog(path: string, content: Content, log: Log): (r: Log)
    ensures |r.success| + |r.fail| == |log.success| + |log.fail| + 1
    ensures Truthy(content) <==> |r.success| == |log.success| + 1
    ensures Truthy(content) ==> r.success == log.success + [path] && r.fail == log.fail
    ensures !Truthy(content) ==> r.fail == log.fail + [path] && r.success == log.success
  {
    if Truthy(content) then log.(success := log.success + [path])
    else log.(fail := log.fail + [path])
  }

  /** The report after logging `outs` one after the other, starting from `log`. */
  function LogAll(log: Log, outs: seq<Outcome>): Log
    decreases |outs|
  {
    if |outs| == 0 then log
    else LogAll(UpdateHtmlAndLog(outs[0].path, outs[0].content, log), outs[1..])
  }

  /** The paths of `outs`, in order. */
  function PathsOf(outs: seq<Outcome>): (r: seq<string>)
    ensures |r| == |outs|
    ensures forall i :: 0 <= i < |outs| ==> r[i] == outs[i].path
  {
    seq(|outs|, i requires 0 <= i < |outs| => outs[i].path)
  }

  /** The paths of the outcomes whose content is truthy (`ok`) or falsy (`!ok`), in order. */
  function Selected(outs: seq<Outcome>, ok: bool): seq<string>
    decreases |outs|
  {
    if |outs| == 0 then []
    else (if Truthy(outs[0].content) == ok then [outs[0].path] else []) + Selected(outs[1..], ok)
  }

  /** Logging a sequence appends to each list exactly the paths whose content picks it. */
  lemma {:induction false} LogAllAppends(log: Log, outs: seq<Outcome>)
    ensures LogAll(log, outs) == Log(log.success + Selected(outs, true), log.fail + Selected(outs, false))
    decreases |outs|
  {
    if |outs| == 0 {
      assert log.success + [] == log.success;
      assert log.fail + [] == log.fail;
    } else {
      var o := outs[0];
      LogAllAppends(UpdateHtmlAndLog(o.path, o.content, log), outs[1..]);
      var yes, no := Selected(outs[1..], true), Selected(outs[1..], false);
      if Truthy(o.content) {
        assert log.success + [o.path] + yes == log.success + ([o.path] + yes);
        assert [] + no == no;
      } else {
        assert log.fail + [o.path] + no == log.fail + ([o.path] + no);
        assert [] + yes == yes;
      }
    }
  }

  /** Each selection keeps input order. */
  lemma {:induction false} SelectedIsSubsequence(outs: seq<Outcome>, ok: bool)
    ensures IsSubsequence(Selected(outs, ok), PathsOf(outs))
    decreases |outs|
  {
    if |outs| > 0 {
      SelectedIsSubsequence(outs[1..], ok);
      var o, rest := outs[0], Selected(outs[1..], ok);
      assert PathsOf(outs) == [o.path] + PathsOf(outs[1..]);
      if Truthy(o.content) == ok {
        SubsequenceKeep(rest, o.path, PathsOf(outs[1..]));
      } else {
        assert Selected(outs, ok) == rest;
        SubsequenceSkip(rest, o.path, PathsOf(outs[1..]));
      }
    }
  }

  /** Between them the two selections hold every path, as often as it occurs. */
  lemma {:induction false} SelectedPartition(outs: seq<Outcome>)
    ensures multiset(Selected(outs, true)) + multiset(Selected(outs, false)) == multiset(PathsOf(outs))
    decreases |outs|
  {
    if |outs| > 0 {
      SelectedPartition(outs[1..]);
      assert PathsOf(outs) == [outs[0].path] + PathsOf(outs[1..]);
    }
  }

  /** From the empty report, every path is logged exactly once (as often as it
      occurs), each list keeps input order, truthy content goes to `success`
      and falsy content to `fail`, and the lengths add up. */
  lemma LogAllPartitions(outs: seq<Outcome>)
    ensures var r := LogAll(EmptyLog, outs);
      && multiset(r.success) + multiset(r.fail) == multiset(PathsOf(outs))
      && IsSubsequence(r.success, PathsOf(outs))
      && IsSubsequence(r.fail, PathsOf(outs))
      && |r.success| + |r.fail| == |outs|
      && (forall i :: 0 <= i < |outs| && Truthy(outs[i].content) ==> outs[i].path in r.success)
      && (forall i :: 0 <= i < |outs| && !Truthy(outs[i].content) ==> outs[i].path in r.fail)
  {
    LogAllAppends(EmptyLog, outs);
    assert [] + Selected(outs, true) == Selected(outs, true);
    assert [] + Selected(outs, false) == Selected(outs, false);
    SelectedIsSubsequence(outs, true);
    SelectedIsSubsequence(outs, false);
    SelectedPartition(outs);
    var r := LogAll(EmptyLog, outs);
    assert |multiset(r.success) + multiset(r.fail)| == |multiset(PathsOf(outs))|;
    forall i | 0 <= i < |outs|
      ensures Truthy(outs[i].content) ==> outs[i].path in r.success
      ensures !Truthy(outs[i].content) ==> outs[i].path in r.fail
    {
      SelectedHolds(outs, i, Truthy(outs[i].content));
    }
  }

  /** An outcome's path is in the selection its content picks. */
  lemma {:induction false} SelectedHolds(outs: seq<Outcome>, i: nat, ok: bool)
    requires i < |outs| && Truthy(outs[i].content) == ok
    ensures outs[i].path in Selected(outs, ok)
    decreases |outs|
  {
    if i > 0 {
      SelectedHolds(outs[1..], i - 1, ok);
    }
  }

  /** The report after one more file is the previous report with that file logged. */
  lemma {:induction false} LogAllSnoc(log: Log, outs: seq<Outcome>, o: Outcome)
    ensures LogAll(log, outs + [o]) == UpdateHtmlAndLog(o.path, o.content, LogAll(log, outs))
    decreases |outs|
  {
    if |outs| == 0 {
      assert outs + [o] == [o];
    } else {
      assert (outs + [o])[1..] == outs[1..] + [o];
      LogAllSnoc(UpdateHtmlAndLog(outs[0].path, outs[0].content, log), outs[1..], o);
    }
  }

  /** No path occurs twice. */
  predicate DistinctPaths(outs: seq<Outcome>) {
    forall i, j :: 0 <= i < j < |outs| ==> outs[i].path != outs[j].path
  }

  /** Every selected path comes from an outcome whose content picks that side. */
  lemma {:induction false} SelectedComesFrom(outs: seq<Outcome>, x: string, ok: bool)
    requires x in Selected(outs, ok)
    ensures exists j :: 0 <= j < |outs| && outs[j].path == x && Truthy(outs[j].content) == ok
    decreases |outs|
  {
    assert |outs| > 0;
    var pick := if Truthy(outs[0].content) == ok then [outs[0].path] else [];
    assert Selected(outs, ok) == pick + Selected(outs[1..], ok);
    if x in pick {
      assert outs[0].path == x && Truthy(outs[0].content) == ok;
    } else {
      SelectedComesFrom(outs[1..], x, ok);
      var j :| 0 <= j < |outs[1..]| && outs[1..][j].path == x && Truthy(outs[1..][j].content) == ok;
      assert outs[j + 1] == outs[1..][j];
    }
  }

  /** When no path repeats, an outcome's path is not in the selection its
      content does not pick. */
  lemma SelectedExcludes(outs: seq<Outcome>, i: nat, ok: bool)
    requires DistinctPaths(outs) && i < |outs| && Truthy(outs[i].content) != ok
    ensures outs[i].path !in Selected(outs, ok)
  {
    if outs[i].path in Selected(outs, ok) {
      SelectedComesFrom(outs, outs[i].path, ok);
    }
  }

  /** When no path repeats, a path ends up in `success` exactly when its content
      is truthy and in `fail` exactly when it is falsy. */
  lemma LogAllSidesExactly(outs: seq<Outcome>, i: nat)
    requires DistinctPaths(outs) && i < |outs|
    ensures var r := LogAll(EmptyLog, outs);
      && (outs[i].path in r.success <==> Truthy(outs[i].content))
      && (outs[i].path in r.fail <==> !Truthy(outs[i].content))
  {
    var ok := Truthy(outs[i].content);
    LogAllAppends(EmptyLog, outs);
    var r := LogAll(EmptyLog, outs);
    assert r.success == Selected(outs, true) by {
      assert [] + Selected(outs, true) == Selected(outs, true);
    }
    assert r.fail == Selected(outs, false) by {
      assert [] + Selected(outs, false) == Selected(outs, false);
    }
    SelectedHolds(outs, i, ok);
    SelectedExcludes(outs, i, !ok);
  }
}
