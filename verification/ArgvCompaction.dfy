/** The end of argument parsing in dt_init of src/darktable.c: consumed arguments have been set to NULL, and the
    vector is closed up in place before GTK sees it. */
module ArgvCompaction {

  datatype Arg = Null | Text(value: string)

  function Kept(args: seq<Arg>): seq<Arg>
  {
    if args == [] then [] else (if args[0].Null? then [] else [args[0]]) + Kept(args[1..])
  }

  // Where the arguments that stay were: every place that holds one, in order.
  function Places(args: seq<Arg>, from: nat): (places: seq<nat>)
    requires from <= |args|
    ensures forall k :: k in places <==> from <= k < |args| && args[k].Text?
    ensures forall i, j :: 0 <= i < j < |places| ==> places[i] < places[j]
    decreases |args| - from
  {
    if from == |args| then
      []
    else
      var rest := Places(args, from + 1);
      assert forall k :: k in [from] + rest <==> k == from || k in rest;
      assert forall j :: 0 <= j < |rest| ==> rest[j] in rest;
      if args[from].Null? then rest else [from] + rest
  }

  ghost predicate NoNull(args: seq<Arg>) { forall i :: 0 <= i < |args| ==> args[i].Text? }
  ghost predicate AllNull(args: seq<Arg>) { forall i :: 0 <= i < |args| ==> args[i].Null? }

  ghost predicate ReadOff(args: seq<Arg>, kept: seq<Arg>, places: seq<nat>)
  {
    |kept| == |places| && forall i :: 0 <= i < |kept| ==> places[i] < |args| && kept[i] == args[places[i]]
  }

  lemma ReadOffMore(args: seq<Arg>, kept: seq<Arg>, places: seq<nat>, from: nat)
    requires ReadOff(args, kept, places) && from < |args|
    ensures ReadOff(args, [args[from]] + kept, [from] + places)
  {
  }

  // Kept reads the non-NULL arguments off in order and misses none.
  lemma {:induction false} KeptInOrder(args: seq<Arg>, from: nat)
    requires from <= |args|
    ensures ReadOff(args, Kept(args[from..]), Places(args, from))
    decreases |args| - from
  {
    hide ReadOff;
    if from < |args| {
      assert args[from..][1..] == args[from + 1..];
      KeptInOrder(args, from + 1);
      var kept, places := Kept(args[from + 1..]), Places(args, from + 1);
      if args[from].Null? {
        assert Kept(args[from..]) == kept;
      } else {
        assert Kept(args[from..]) == [args[from]] + kept;
        ReadOffMore(args, kept, places, from);
      }
    } else {
      NothingReadOff(args);
    }
  }

  lemma NothingReadOff(args: seq<Arg>)
    ensures ReadOff(args, [], [])
  {
  }

  lemma {:induction false} KeptJoin(a: seq<Arg>, b: seq<Arg>)
    ensures Kept(a + b) == Kept(a) + Kept(b)
  {
    if a == [] {
      assert a + b == b;
    } else {
      assert (a + b)[1..] == a[1..] + b;
      KeptJoin(a[1..], b);
    }
  }

  lemma {:induction false} KeptOfNulls(args: seq<Arg>)
    requires AllNull(args)
    ensures Kept(args) == []
  {
    if args != [] {
      KeptOfNulls(args[1..]);
    }
  }

  // There is nothing left to do exactly when no NULL is left.
  lemma {:induction false} KeptIsAllIff(args: seq<Arg>)
    ensures Kept(args) == args <==> NoNull(args)
    ensures |Kept(args)| <= |args|
  {
    if args != [] {
      KeptIsAllIff(args[1..]);
      if args[0].Null? {
        assert |Kept(args)| < |args|;
      } else {
        assert args == [args[0]] + args[1..];
        assert NoNull(args) ==> NoNull(args[1..]);
      }
    }
  }

  lemma {:induction false} KeptHasNoNull(args: seq<Arg>)
    ensures NoNull(Kept(args))
  {
    if args != [] {
      KeptHasNoNull(args[1..]);
    }
  }

  lemma KeptTwice(args: seq<Arg>)
    ensures Kept(Kept(args)) == Kept(args)
  {
    KeptHasNoNull(args);
    KeptIsAllIff(Kept(args));
  }

  // After a gap is closed, the arguments are those of before without the gap, and the rest is NULL.
  ghost predicate Closed(was: seq<Arg>, now: seq<Arg>, i: nat, gap: nat, argc: nat)
    requires i + gap <= argc <= |was| && |now| == |was|
  {
    && (forall x :: 0 <= x < i || argc <= x < |was| ==> now[x] == was[x])
    && (forall x :: i <= x < i + gap ==> was[x].Null?)
    && (forall x :: i <= x < argc - gap ==> now[x] == was[x + gap])
    && (forall x :: argc - gap <= x < argc ==> now[x].Null?)
  }

  lemma ClosedKeeps(was: seq<Arg>, now: seq<Arg>, i: nat, gap: nat, argc: nat)
    requires 1 <= i && i + gap <= argc <= |was| && |now| == |was| && Closed(was, now, i, gap, argc)
    ensures Kept(now[1..argc - gap]) == Kept(was[1..argc])
  {
    hide Kept;
    var head, hole, tail := was[1..i], was[i..i + gap], was[i + gap..argc];
    KeptJoin(head + hole, tail);
    KeptJoin(head, hole);
    KeptJoin(head, tail);
    KeptOfNulls(hole);
    assert was[1..argc] == head + hole + tail;
    assert now[1..argc - gap] == head + tail;
  }

  lemma NothingMoved(was: seq<Arg>, i: nat, gap: nat, argc: nat)
    requires i + gap <= argc <= |was| && (gap == 0 || argc == i + gap)
    requires forall x :: i <= x < i + gap ==> was[x].Null?
    ensures Closed(was, was, i, gap, argc)
  {
  }

  // One round of the inner loop: the next argument is moved over the gap.
  lemma ClosedOneMore(was: seq<Arg>, now: seq<Arg>, i: nat, gap: nat, j: nat)
    requires 0 < gap && i + gap <= j < |was| && |now| == |was| && Closed(was, now, i, gap, j)
    ensures Closed(was, now[j - gap := now[j]][j := Null], i, gap, j + 1)
    ensures now[j] == was[j]
  {
  }

  // The inner loops: find the next argument, and move everything from there on down over the gap.
  method CloseGap(argv: array<Arg>, i: nat, argc: nat) returns (argc': nat)
    requires 1 <= i < argc <= argv.Length
    modifies argv
    ensures i <= argc' <= argc && (argc' > i ==> argv[i].Text?)
    ensures Closed(old(argv[..]), argv[..], i, argc - argc', argc)
  {
    hide Kept, Closed;
    ghost var was := argv[..];
    var k := i;
    while k < argc && argv[k].Null?
      invariant i <= k <= argc && forall x :: i <= x < k ==> was[x].Null?
    {
      k := k + 1;
    }
    argc' := argc;
    if k > i {
      k := k - i;
      NothingMoved(was, i, k, i + k);
      for j := i + k to argc
        invariant Closed(was, argv[..], i, k, j) && (j > i + k ==> argv[i] == was[i + k])
      {
        ClosedOneMore(was, argv[..], i, k, j);
        ghost var next := argv[..][j - k := argv[j]][j := Null];
        argv[j - k] := argv[j];
        argv[j] := Null;
        assert argv[..] == next;
      }
      argc' := argc - k;
    } else {
      NothingMoved(was, i, 0, argc);
    }
  }

  // What the outer loop keeps: the vector began with n arguments, holds argc now, and no NULL is left before i.
  ghost predicate Settled(was: seq<Arg>, now: seq<Arg>, i: nat, argc: nat, n: nat)
    requires 1 <= argc <= n <= |was| && |now| == |was|
  {
    && now[0] == was[0]
    && (forall x :: 1 <= x < i && x < argc ==> now[x].Text?)
    && (forall x :: argc <= x < n ==> now[x].Null?)
    && (forall x :: n <= x < |was| ==> now[x] == was[x])
    && Kept(now[1..argc]) == Kept(was[1..n])
  }

  lemma SettledAtFirst(was: seq<Arg>, n: nat)
    requires 1 <= n <= |was|
    ensures Settled(was, was, 1, n, n)
  {
  }

  lemma SettledMore(was: seq<Arg>, before: seq<Arg>, now: seq<Arg>, i: nat, gap: nat, argc: nat, n: nat)
    requires 1 <= i && i + gap <= argc <= n <= |was| && |before| == |now| == |was|
    requires Settled(was, before, i, argc, n) && Closed(before, now, i, gap, argc)
    requires i < argc - gap ==> now[i].Text?
    ensures Settled(was, now, i + 1, argc - gap, n)
  {
    hide Kept;
    ClosedKeeps(before, now, i, gap, argc);
  }

  lemma SettledAtLast(was: seq<Arg>, now: seq<Arg>, i: nat, argc: nat, n: nat)
    requires 1 <= argc <= n <= |was| && |now| == |was| && Settled(was, now, i, argc, n) && argc <= i
    ensures now[1..argc] == Kept(was[1..n])
  {
    hide Kept;
    KeptIsAllIff(now[1..argc]);
  }

  method RemoveNulls(argv: array<Arg>, argc: nat) returns (argc': nat)
    requires argc <= argv.Length
    modifies argv
    ensures argc == 0 ==> argc' == 0 && argv[..] == old(argv[..])
    ensures argc > 0 ==> 1 <= argc' <= argc && argv[0] == old(argv[0]) && argv[1..argc'] == Kept(old(argv[1..argc]))
    ensures forall x :: argc' <= x < argc ==> argv[x].Null?
    ensures forall x :: argc <= x < argv.Length ==> argv[x] == old(argv[x])
  {
    hide Kept, Closed;
    argc' := argc;
    if argc == 0 {
      return;
    }
    var i := 1;
    ghost var was := argv[..];
    SettledAtFirst(was, argc);
    while i < argc'
      invariant 1 <= i && 1 <= argc' <= argc && Settled(was, argv[..], i, argc', argc)
      decreases argc' - i
    {
      hide Settled;
      ghost var now, before := argv[..], argc';
      argc' := CloseGap(argv, i, argc');
      SettledMore(was, now, argv[..], i, before - argc', before, argc);
      i := i + 1;
    }
    SettledAtLast(was, argv[..], i, argc', argc);
  }
}
