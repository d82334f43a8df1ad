/** The -signer and -inkey options of the cms tool: how keys are paired with signers. */
module SignerPairs {
  import opened Options

  datatype Arg = Signer(file: string) | Inkey(file: string)

  function Signers(args: seq<Arg>): seq<string> {
    if args == [] then []
    else Signers(args[..|args| - 1]) + if args[|args| - 1].Signer? then [args[|args| - 1].file] else []
  }

  function Inkeys(args: seq<Arg>): seq<string> {
    if args == [] then []
    else Inkeys(args[..|args| - 1]) + if args[|args| - 1].Inkey? then [args[|args| - 1].file] else []
  }

  /** The keys that were given, not taken over from their signer. */
  function Given(keys: seq<string>, taken: seq<bool>): seq<string>
    requires |keys| == |taken|
  {
    if keys == [] then []
    else Given(keys[..|keys| - 1], taken[..|keys| - 1]) + if taken[|keys| - 1] then [] else [keys[|keys| - 1]]
  }

  /** The arguments fall into blocks: a signer alone, or a signer and its key in either order. */
  predicate Blocks(args: seq<Arg>)
    decreases |args|
  {
    || args == []
    || (args[0].Signer? && Blocks(args[1..]))
    || (|args| >= 2 && args[0].Signer? != args[1].Signer? && Blocks(args[2..]))
  }

  /** The pairs, from the left: two arguments of different kinds are one pair, a signer that no key
      follows is its own key. A key without a signer has no pair. */
  function Pairs(args: seq<Arg>): Option<seq<(string, string)>>
    decreases |args|
  {
    if args == [] then Some([])
    else if |args| >= 2 && args[0].Signer? != args[1].Signer? then
      var (s, k) := if args[0].Signer? then (args[0].file, args[1].file) else (args[1].file, args[0].file);
      Prepend([(s, k)], Pairs(args[2..]))
    else if args[0].Signer? then Prepend([(args[0].file, args[0].file)], Pairs(args[1..]))
    else None
  }

  /** Pairing from the left succeeds exactly when some division into blocks exists. */
  lemma {:induction false} PairsIffBlocks(args: seq<Arg>)
    ensures Pairs(args).Some? <==> Blocks(args)
    ensures args != [] && args[0].Signer? && Blocks(args[1..]) ==> Blocks(args)
    decreases |args|
  {
    if args != [] {
      PairsIffBlocks(args[1..]);
      if |args| >= 2 {
        PairsIffBlocks(args[2..]);
        assert args[1..][0] == args[1] && args[1..][1..] == args[2..];
      }
      if |args| >= 3 {
        assert args[1..][1] == args[2] && args[1..][2..] == args[3..];
        assert args[2..][0] == args[2] && args[2..][1..] == args[3..];
      }
    }
  }

  /** Whether the rest of the arguments is accepted with a signer or a key pending. */
  predicate Accepts(signer: bool, key: bool, args: seq<Arg>)
    decreases |args|
  {
    if args == [] then signer
    else if args[0].Signer? then Accepts(true, if signer then false else key, args[1..])
    else if key then signer && Accepts(false, true, args[1..])
    else Accepts(signer, true, args[1..])
  }

  /** The options are accepted exactly when they fall into blocks. */
  lemma {:induction false} AcceptsIffBlocks(args: seq<Arg>)
    ensures Accepts(true, true, args) <==> Blocks(args)
    ensures Accepts(true, false, args) <==> Blocks(args) || (args != [] && args[0].Inkey? && Blocks(args[1..]))
    ensures Accepts(false, true, args) <==> args != [] && args[0].Signer? && Blocks(args[1..])
    ensures Accepts(false, false, args) <==> args != [] && Blocks(args)
    decreases |args|
  {
    if args != [] {
      AcceptsIffBlocks(args[1..]);
      if |args| >= 2 {
        assert args[1..][0] == args[1] && args[1..][1..] == args[2..];
      }
    }
  }

  /** The pairs still owed: what is pending goes in front of the rest. */
  function Owed(signer: Option<string>, key: Option<string>, rest: seq<Arg>): Option<seq<(string, string)>> {
    if signer.Some? && key.Some? then Prepend([(signer.value, key.value)], Pairs(rest))
    else if signer.Some? then Pairs([Signer(signer.value)] + rest)
    else if key.Some? then Pairs([Inkey(key.value)] + rest)
    else Pairs(rest)
  }

  function Own(signer: string, key: Option<string>): (string, string) {
    (signer, if key.Some? then key.value else signer)
  }

  lemma OwedSigner(signer: Option<string>, key: Option<string>, file: string, rest: seq<Arg>)
    ensures Owed(signer, key, [Signer(file)] + rest)
            == if signer.Some? then Prepend([Own(signer.value, key)], Owed(Some(file), None, rest))
               else Owed(Some(file), key, rest)
  {
    Peel(signer, key, Signer(file), rest);
  }

  lemma OwedInkey(signer: Option<string>, key: Option<string>, file: string, rest: seq<Arg>)
    ensures Owed(signer, key, [Inkey(file)] + rest)
            == if key.None? then Owed(signer, Some(file), rest)
               else if signer.None? then None
               else Prepend([Own(signer.value, key)], Owed(None, Some(file), rest))
  {
    Peel(signer, key, Inkey(file), rest);
  }

  lemma Peel(signer: Option<string>, key: Option<string>, a: Arg, rest: seq<Arg>)
    ensures forall p: Arg :: ([p] + ([a] + rest))[1..] == [a] + rest && ([p] + ([a] + rest))[2..] == rest
  {
  }

  lemma OwedAtEnd(signer: Option<string>, key: Option<string>)
    ensures Owed(signer, key, [])
            == if signer.Some? then Some([Own(signer.value, key)]) else if key.Some? then None else Some([])
  {
    if signer.Some? {
      var a, p := Signer(signer.value), Own(signer.value, key);
      assert [a] + [] == [a] && [a][1..] == [] && [p] + [] == [p];
      assert Pairs([]) == Some([]) && Prepend([p], Some([])) == Some([p]);
    } else if key.Some? {
      var a := Inkey(key.value);
      assert [a] + [] == [a];
    }
  }

  function Zip(signers: seq<string>, keys: seq<string>): (z: seq<(string, string)>)
    requires |signers| == |keys|
    ensures |z| == |signers| && forall i :: 0 <= i < |z| ==> z[i] == (signers[i], keys[i])
  {
    seq(|signers|, i requires 0 <= i < |signers| => (signers[i], keys[i]))
  }

  /** What was pushed and what is pending accounts for all arguments so far. */
  ghost predicate Accounts(args: seq<Arg>, signers: seq<string>, keys: seq<string>, taken: seq<bool>,
                           signer: Option<string>, key: Option<string>) {
    && |signers| == |keys| == |taken|
    && (forall i :: 0 <= i < |keys| && taken[i] ==> keys[i] == signers[i])
    && Signers(args) == signers + (if signer.Some? then [signer.value] else [])
    && Inkeys(args) == Given(keys, taken) + (if key.Some? then [key.value] else [])
  }

  lemma AccountsForNothing()
    ensures Accounts([], [], [], [], None, None)
  {}

  lemma AccountsSigner(args: seq<Arg>, signers: seq<string>, keys: seq<string>, taken: seq<bool>,
                       key: Option<string>, file: string)
    requires Accounts(args, signers, keys, taken, None, key)
    ensures Accounts(args + [Signer(file)], signers, keys, taken, Some(file), key)
  {
    assert (args + [Signer(file)])[..|args|] == args;
    assert Inkeys(args) + [] == Inkeys(args) && signers + [] == signers;
  }

  lemma AccountsInkey(args: seq<Arg>, signers: seq<string>, keys: seq<string>, taken: seq<bool>,
                      signer: Option<string>, file: string)
    requires Accounts(args, signers, keys, taken, signer, None)
    ensures Accounts(args + [Inkey(file)], signers, keys, taken, signer, Some(file))
  {
    assert (args + [Inkey(file)])[..|args|] == args;
    assert Signers(args) + [] == Signers(args) && Given(keys, taken) + [] == Given(keys, taken);
  }

  lemma AccountsDone(args: seq<Arg>, signers: seq<string>, keys: seq<string>, taken: seq<bool>)
    requires Accounts(args, signers, keys, taken, None, None)
    ensures |signers| == |keys| == |taken| && signers == Signers(args) && Given(keys, taken) == Inkeys(args)
    ensures forall i :: 0 <= i < |keys| && taken[i] ==> keys[i] == signers[i]
  {
    assert signers + [] == signers && Given(keys, taken) + [] == Given(keys, taken);
  }

  lemma AcceptsStep(signer: bool, key: bool, args: seq<Arg>)
    ensures Accepts(signer, key, args)
            == if args == [] then signer
               else if args[0].Signer? then Accepts(true, if signer then false else key, args[1..])
               else if key then signer && Accepts(false, true, args[1..])
               else Accepts(signer, true, args[1..])
  {}

  /** The option loop and the final signer. The stacks have equal length, the signers are the -signer
      arguments in order, and the keys that were not taken over from their signer are the -inkey
      arguments in order. */
  method PairSigners(args: seq<Arg>) returns (ok: bool, signers: seq<string>, keys: seq<string>, ghost taken: seq<bool>)
    ensures ok <==> args != [] && Blocks(args)
    ensures ok ==> |signers| == |keys| == |taken| && signers == Signers(args)
                   && (forall i :: 0 <= i < |keys| && taken[i] ==> keys[i] == signers[i])
                   && Given(keys, taken) == Inkeys(args)
    ensures ok ==> Pairs(args) == Some(Zip(signers, keys))
  {
    var signerfile: Option<string>, keyfile: Option<string> := None, None;
    signers, keys, taken := [], [], [];
    assert Owed(None, None, args) == Pairs(args);
    hide Accounts, Accepts, Blocks, Given, Signers, Inkeys, Pairs, Owed, Prepend, Own;
    AcceptsIffBlocks(args);
    AccountsForNothing();
    assert args[0..] == args && args[..0] == [];
    assert Zip(signers, keys) == [];
    PrependNothing(Pairs(args));
    for i := 0 to |args|
      invariant Accounts(args[..i], signers, keys, taken, signerfile, keyfile)
      invariant Accepts(false, false, args) == Accepts(signerfile.Some?, keyfile.Some?, args[i..])
      invariant i > 0 ==> signerfile.Some? || keyfile.Some?
      invariant |signers| == |keys| && Pairs(args) == Prepend(Zip(signers, keys), Owed(signerfile, keyfile, args[i..]))
    {
      assert args[i..] == [args[i]] + args[i + 1..];
      assert args[i..][0] == args[i] && args[i..][1..] == args[i + 1..];
      assert args[..i + 1] == args[..i] + [args[i]];
      AcceptsStep(signerfile.Some?, keyfile.Some?, args[i..]);
      match args[i] {
        case Signer(file) =>
          OwedSigner(signerfile, keyfile, file, args[i + 1..]);
          if signerfile.Some? {
            PrependTwice(Zip(signers, keys), [Own(signerfile.value, keyfile)], Owed(Some(file), None, args[i + 1..]));
            signers, keys, taken := Push(args[..i], signers, keys, taken, signerfile.value, keyfile);
            keyfile := None;
          }
          AccountsSigner(args[..i], signers, keys, taken, keyfile, file);
          signerfile := Some(file);
        case Inkey(file) =>
          OwedInkey(signerfile, keyfile, file, args[i + 1..]);
          if keyfile.Some? {
            if signerfile.None? {
              return false, signers, keys, taken;
            }
            PrependTwice(Zip(signers, keys), [Own(signerfile.value, keyfile)], Owed(None, Some(file), args[i + 1..]));
            signers, keys, taken := Push(args[..i], signers, keys, taken, signerfile.value, keyfile);
            signerfile := None;
          }
          AccountsInkey(args[..i], signers, keys, taken, signerfile, file);
          keyfile := Some(file);
      }
    }
    assert args[..|args|] == args && args[|args|..] == [];
    AcceptsStep(signerfile.Some?, keyfile.Some?, []);
    if keyfile.Some? && signerfile.None? {
      return false, signers, keys, taken;
    }
    AllOwed(Zip(signers, keys), signerfile, keyfile);
    if signerfile.Some? {
      signers, keys, taken := Push(args, signers, keys, taken, signerfile.value, keyfile);
    }
    ok := signers != [];
    if ok { AccountsDone(args, signers, keys, taken); }
  }

  lemma AllOwed(done: seq<(string, string)>, signer: Option<string>, key: Option<string>)
    requires signer.Some? || key.None?
    ensures Prepend(done, Owed(signer, key, []))
            == Some(done + if signer.Some? then [Own(signer.value, key)] else [])
  {
    OwedAtEnd(signer, key);
  }

  /** The signer and its key are pushed; without a key the signer file is used. */
  method Push(ghost args: seq<Arg>, signers: seq<string>, keys: seq<string>, ghost taken: seq<bool>, signer: string,
              key: Option<string>)
    returns (signers': seq<string>, keys': seq<string>, ghost taken': seq<bool>)
    requires Accounts(args, signers, keys, taken, Some(signer), key)
    ensures Accounts(args, signers', keys', taken', None, None) && signers' != []
    ensures |signers| == |keys| && |signers'| == |keys'|
            && Zip(signers', keys') == Zip(signers, keys) + [Own(signer, key)]
  {
    signers' := signers + [signer];
    keys' := keys + [if key.Some? then key.value else signer];
    taken' := taken + [key.None?];
    assert keys'[..|keys|] == keys && taken'[..|keys|] == taken;
    assert signers' + [] == signers' && Given(keys', taken') + [] == Given(keys', taken');
  }

  /** A key between two signers belongs to the first. */
  lemma KeyBetweenSigners(a: string, k: string, b: string)
    ensures Pairs([Signer(a), Inkey(k), Signer(b)]) == Some([(a, k), (b, b)])
    ensures Pairs([Inkey(k), Signer(a), Signer(b)]) == Some([(a, k), (b, b)])
  {
    assert [Signer(a), Inkey(k), Signer(b)][2..] == [Signer(b)] && [Inkey(k), Signer(a), Signer(b)][2..] == [Signer(b)];
    assert [Signer(b)][1..] == [] && [(b, b)] + [] == [(b, b)] && [(a, k)] + [(b, b)] == [(a, k), (b, b)];
    assert Pairs([]) == Some([]);
    assert Pairs([Signer(b)]) == Some([(b, b)]);
  }
}
