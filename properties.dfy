/** What the command builder and the database shaping promise, proved about
    the specification functions of module CompileCommands. */
module CompileCommandsProperties {
  import opened Wrappers
  import opened CompileCommands

  // ---------------------------------------------------------------------------
  // The filtered arguments are the input with exactly the disallowed entries
  // removed, order otherwise kept
  // ---------------------------------------------------------------------------

  /** The positions of `args` that survive the filter, in increasing order. */
  function KeptPositions(args: seq<string>, disallowed: set<string>): seq<nat>
  {
    if args == [] then []
    else
      var n := |args| - 1;
      KeptPositions(args[..n], disallowed) + (if args[n] in disallowed then [] else [n])
  }

  /** `out` is `args` seen through the strictly increasing position list
      `pos`, and `pos` holds exactly the positions whose argument is not
      disallowed: `out` is `args` with precisely the disallowed entries
      removed and nothing reordered. */
  ghost predicate RemovesExactly(args: seq<string>, disallowed: set<string>, pos: seq<nat>, out: seq<string>)
  {
    && |pos| == |out|
    && (forall j :: 0 <= j < |pos| ==> pos[j] < |args| && out[j] == args[pos[j]])
    && (forall j, k :: 0 <= j < k < |pos| ==> pos[j] < pos[k])
    && (forall p :: 0 <= p < |args| ==> (p in pos <==> args[p] !in disallowed))
  }

  /** The filter removes exactly the disallowed arguments and keeps the rest
      in their original order. */
  lemma {:induction false} FilteredRemovesExactly(args: seq<string>, disallowed: set<string>)
    ensures RemovesExactly(args, disallowed, KeptPositions(args, disallowed), Filtered(args, disallowed))
  {
    if args != [] {
      var n := |args| - 1;
      var init := args[..n];
      FilteredRemovesExactly(init, disallowed);
      var pos0 := KeptPositions(init, disallowed);
      assert forall j :: 0 <= j < |pos0| ==> pos0[j] < n;
    }
  }

  /** Two strictly increasing position lists holding the same positions are
      the same list. */
  lemma {:induction false} IncreasingSameElements(a: seq<nat>, b: seq<nat>)
    requires forall j, k :: 0 <= j < k < |a| ==> a[j] < a[k]
    requires forall j, k :: 0 <= j < k < |b| ==> b[j] < b[k]
    requires forall p :: p in a <==> p in b
    ensures a == b
  {
    assert a != [] ==> a[0] in b;
    assert b != [] ==> b[0] in a;
    if a != [] && b != [] {
      var la, lb := a[|a| - 1], b[|b| - 1];
      assert la in b;
      assert lb in a;
      assert la == lb by {
        var i :| 0 <= i < |b| && b[i] == la;
        var k :| 0 <= k < |a| && a[k] == lb;
        assert la <= lb;
        assert lb <= la;
      }
      var a', b' := a[..|a| - 1], b[..|b| - 1];
      forall p
        ensures p in a' <==> p in b'
      {
        if p in a' {
          var i :| 0 <= i < |a'| && a'[i] == p;
          assert p < la;
          assert p in b;
          assert p != lb;
          var k :| 0 <= k < |b| && b[k] == p;
          assert k < |b| - 1;
          assert b'[k] == p;
        }
        if p in b' {
          var i :| 0 <= i < |b'| && b'[i] == p;
          assert p < lb;
          assert p in a;
          assert p != la;
          var k :| 0 <= k < |a| && a[k] == p;
          assert k < |a| - 1;
          assert a'[k] == p;
        }
      }
      IncreasingSameElements(a', b');
      assert a == a' + [la];
      assert b == b' + [lb];
    }
  }

  /** Removing exactly the disallowed arguments without reordering determines
      the result: any such `out` is the filter's. */
  lemma RemovesExactlyIsFiltered(args: seq<string>, disallowed: set<string>, pos: seq<nat>, out: seq<string>)
    requires RemovesExactly(args, disallowed, pos, out)
    ensures out == Filtered(args, disallowed)
  {
    var kept := KeptPositions(args, disallowed);
    FilteredRemovesExactly(args, disallowed);
    forall p
      ensures p in pos <==> p in kept
    {
      if p in pos {
        var j :| 0 <= j < |pos| && pos[j] == p;
      }
      if p in kept {
        var j :| 0 <= j < |kept| && kept[j] == p;
      }
    }
    IncreasingSameElements(pos, kept);
  }

  // ---------------------------------------------------------------------------
  // Membership, length and idempotence of the filter
  // ---------------------------------------------------------------------------

  /** An argument survives the filter exactly when it is in the input and not
      disallowed. */
  lemma {:induction false} FilteredMembership(args: seq<string>, disallowed: set<string>, x: string)
    ensures x in Filtered(args, disallowed) <==> x in args && x !in disallowed
  {
    if args != [] {
      var n := |args| - 1;
      FilteredMembership(args[..n], disallowed, x);
      assert args == args[..n] + [args[n]];
    }
  }

  /** The filter keeps the whole list exactly when nothing in it is
      disallowed, and otherwise makes it strictly shorter. */
  lemma {:induction false} FilteredLength(args: seq<string>, disallowed: set<string>)
    ensures (|Filtered(args, disallowed)| == |args|) <==> (forall k :: 0 <= k < |args| ==> args[k] !in disallowed)
    ensures (forall k :: 0 <= k < |args| ==> args[k] !in disallowed) ==> Filtered(args, disallowed) == args
  {
    if args != [] {
      var n := |args| - 1;
      FilteredLength(args[..n], disallowed);
      assert args == args[..n] + [args[n]];
      assert forall k :: 0 <= k < n ==> args[..n][k] == args[k];
    }
  }

  /** Filtering a filtered list changes nothing. */
  lemma FilteredIdempotent(args: seq<string>, disallowed: set<string>)
    ensures Filtered(Filtered(args, disallowed), disallowed) == Filtered(args, disallowed)
  {
    var out := Filtered(args, disallowed);
    forall k | 0 <= k < |out|
      ensures out[k] !in disallowed
    {
      assert out[k] in out;
    }
    FilteredLength(out, disallowed);
  }

  /** The filter works argument by argument: filtering a concatenation is
      concatenating the filtered parts. */
  lemma {:induction false} FilteredAppend(a: seq<string>, b: seq<string>, disallowed: set<string>)
    ensures Filtered(a + b, disallowed) == Filtered(a, disallowed) + Filtered(b, disallowed)
  {
    if b == [] {
      assert a + b == a;
    } else {
      var n := |b| - 1;
      FilteredAppend(a, b[..n], disallowed);
      assert (a + b)[..|a + b| - 1] == a + b[..n];
    }
  }

  // ---------------------------------------------------------------------------
  // The file a command runs on
  // ---------------------------------------------------------------------------

  /** Position `k` holds a kept ".cc" argument and no kept ".cc" argument
      comes after it. */
  ghost predicate IsLastCc(args: seq<string>, disallowed: set<string>, k: int)
  {
    && 0 <= k < |args|
    && args[k] !in disallowed && IsCcFile(args[k])
    && forall j :: k < j < |args| ==> args[j] in disallowed || !IsCcFile(args[j])
  }

  /** No file is recorded exactly when no kept argument ends in ".cc". */
  lemma {:induction false} LastCcFileNone(args: seq<string>, disallowed: set<string>)
    ensures LastCcFile(args, disallowed).None? <==>
      forall k :: 0 <= k < |args| ==> args[k] in disallowed || !IsCcFile(args[k])
  {
    if args != [] {
      var n := |args| - 1;
      LastCcFileNone(args[..n], disallowed);
      assert forall k :: 0 <= k < n ==> args[..n][k] == args[k];
    }
  }

  /** The last kept ".cc" argument is the recorded file: a later one
      overwrites an earlier one. */
  lemma {:induction false} LastCcFileIsLast(args: seq<string>, disallowed: set<string>, k: int)
    requires IsLastCc(args, disallowed, k)
    ensures LastCcFile(args, disallowed) == Some(args[k])
  {
    var n := |args| - 1;
    if k < n {
      assert args[n] in disallowed || !IsCcFile(args[n]);
      assert forall j :: 0 <= j < n ==> args[..n][j] == args[j];
      LastCcFileIsLast(args[..n], disallowed, k);
    }
  }

  /** A recorded file is at a position that is the last kept ".cc" one;
      `k` is that position. */
  lemma {:induction false} LastCcFileHasPosition(args: seq<string>, disallowed: set<string>) returns (k: int)
    requires LastCcFile(args, disallowed).Some?
    ensures IsLastCc(args, disallowed, k) && args[k] == LastCcFile(args, disallowed).value
  {
    var n := |args| - 1;
    if args[n] !in disallowed && IsCcFile(args[n]) {
      k := n;
    } else {
      k := LastCcFileHasPosition(args[..n], disallowed);
      assert args[..n][k] == args[k];
    }
  }

  /** A single kept ".cc" argument is the file. */
  lemma OnlyCcIsFile(args: seq<string>, disallowed: set<string>, k: int)
    requires 0 <= k < |args| && args[k] !in disallowed && IsCcFile(args[k])
    requires forall j :: 0 <= j < |args| && j != k ==> args[j] in disallowed || !IsCcFile(args[j])
    ensures CommandFor(args, disallowed).file == Some(args[k])
  {
    LastCcFileIsLast(args, disallowed, k);
  }

  /** The recorded file ends in ".cc", is not disallowed and is one of the
      command's arguments. */
  lemma FileIsAnArgument(args: seq<string>, disallowed: set<string>)
    ensures var cmd := CommandFor(args, disallowed);
      cmd.file.Some? ==>
        IsCcFile(cmd.file.value) && cmd.file.value !in disallowed && cmd.file.value in cmd.arguments
  {
    var cmd := CommandFor(args, disallowed);
    if cmd.file.Some? {
      FilteredMembership(args, disallowed, cmd.file.value);
    }
  }

  /** The filter does not change which file is recorded. */
  lemma {:induction false} LastCcFileOfFiltered(args: seq<string>, disallowed: set<string>)
    ensures LastCcFile(Filtered(args, disallowed), disallowed) == LastCcFile(args, disallowed)
  {
    if args != [] {
      var n := |args| - 1;
      LastCcFileOfFiltered(args[..n], disallowed);
      var rest := Filtered(args[..n], disallowed);
      if args[n] !in disallowed {
        assert (rest + [args[n]])[..|rest|] == rest;
      }
    }
  }

  /** Building a command from a command's own arguments gives the same
      command back. */
  lemma CommandForIdempotent(args: seq<string>, disallowed: set<string>)
    ensures CommandFor(CommandFor(args, disallowed).arguments, disallowed) == CommandFor(args, disallowed)
  {
    FilteredIdempotent(args, disallowed);
    LastCcFileOfFiltered(args, disallowed);
  }

  /** An empty argument list gives no file and no arguments. */
  lemma EmptyArgs(disallowed: set<string>)
    ensures CommandFor([], disallowed) == ClangTidyCommand(None, [])
  {
  }

  /** The source's own denylist drops the system-header flag and the
      translation unit becomes the file. */
  lemma DisallowedFlagDropped()
    ensures CommandFor(["clang", "-fno-canonical-system-headers", "-c", "foo.cc"], DisallowedArgs)
         == ClangTidyCommand(Some("foo.cc"), ["clang", "-c", "foo.cc"])
  {
    var args := ["clang", "-fno-canonical-system-headers", "-c", "foo.cc"];
    assert IsLastCc(args, DisallowedArgs, 3);
    LastCcFileIsLast(args, DisallowedArgs, 3);
    assert args[..3] == ["clang", "-fno-canonical-system-headers", "-c"];
    assert args[..3][..2] == ["clang", "-fno-canonical-system-headers"];
    assert args[..3][..2][..1] == ["clang"];
    assert Filtered(args[..3][..2][..1], DisallowedArgs) == ["clang"];
    assert Filtered(args[..3][..2], DisallowedArgs) == ["clang"];
    assert Filtered(args[..3], DisallowedArgs) == ["clang", "-c"];
  }

  // ---------------------------------------------------------------------------
  // Database entries
  // ---------------------------------------------------------------------------

  /** Dumping loses nothing: each entry gives back the command it was made
      from, in order. */
  lemma DumpAllRoundTrip(commands: seq<ClangTidyCommand>, directory: string)
    ensures var entries := DumpAll(commands, directory);
      seq(|entries|, i requires 0 <= i < |entries| => CommandOf(entries[i])) == commands
  {
  }
}
