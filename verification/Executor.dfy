/** Merging the account lists of swap instructions into one table and renumbering their indices. */
module Executor {
  import opened Message

  /** An instruction over its own account list. */
  datatype SwapInstruction = SwapInstruction(accounts: seq<Bytes>, ix: Instruction)

  /** The executor indexes the list without a check. */
  ghost predicate InRange(s: SwapInstruction)
  {
    s.ix.programIdIdx < |s.accounts| && forall k :: 0 <= k < |s.ix.accountIndices| ==> s.ix.accountIndices[k] < |s.accounts|
  }

  ghost predicate AllInRange(swaps: seq<SwapInstruction>)
  {
    forall i :: 0 <= i < |swaps| ==> InRange(swaps[i])
  }

  // ── The table ────────────────────────────────────────────────────

  ghost predicate NoDuplicates(table: seq<Bytes>)
  {
    forall i, j :: 0 <= i < j < |table| ==> table[i] != table[j]
  }

  function WithAccount(table: seq<Bytes>, key: Bytes): seq<Bytes>
  {
    if key in table then table else table + [key]
  }

  function WithAccounts(table: seq<Bytes>, accounts: seq<Bytes>): seq<Bytes>
  {
    if |accounts| == 0 then table
    else WithAccount(WithAccounts(table, accounts[..|accounts| - 1]), accounts[|accounts| - 1])
  }

  /** The payer first, then every account in order of first use. */
  function Table(payer: Bytes, swaps: seq<SwapInstruction>): seq<Bytes>
  {
    if |swaps| == 0 then [payer] else WithAccounts(Table(payer, swaps[..|swaps| - 1]), swaps[|swaps| - 1].accounts)
  }

  /** The first position of key, 0 when absent. */
  function Position(table: seq<Bytes>, key: Bytes): (p: nat)
    ensures key in table ==> p < |table| && table[p] == key
    ensures key !in table ==> p == 0
  {
    if key !in table then 0
    else if table[0] == key then 0
    else 1 + Position(table[1..], key)
  }

  lemma {:induction false} WithAccountsKeeps(table: seq<Bytes>, accounts: seq<Bytes>)
    ensures var r := WithAccounts(table, accounts);
            && table <= r && (NoDuplicates(table) ==> NoDuplicates(r))
            && forall key :: key in r <==> key in table || key in accounts
  {
    if |accounts| > 0 {
      var init, last := accounts[..|accounts| - 1], accounts[|accounts| - 1];
      WithAccountsKeeps(table, init);
      assert accounts == init + [last];
    }
  }

  lemma {:induction false} TableKeeps(payer: Bytes, swaps: seq<SwapInstruction>, k: nat)
    requires k <= |swaps|
    ensures Table(payer, swaps[..k]) <= Table(payer, swaps)
    decreases |swaps|
  {
    if k < |swaps| {
      var init := swaps[..|swaps| - 1];
      TableKeeps(payer, init, k);
      assert init[..k] == swaps[..k];
      WithAccountsKeeps(Table(payer, init), swaps[|swaps| - 1].accounts);
    } else {
      assert swaps[..k] == swaps;
    }
  }

  ghost predicate Mentions(swaps: seq<SwapInstruction>, key: Bytes)
  {
    exists i :: 0 <= i < |swaps| && key in swaps[i].accounts
  }

  /** The table starts with the payer, has no duplicates, and lists exactly the accounts in use. */
  lemma {:induction false} TableIsExact(payer: Bytes, swaps: seq<SwapInstruction>)
    ensures var t := Table(payer, swaps);
            && |t| >= 1 && t[0] == payer && NoDuplicates(t)
            && forall key :: key in t <==> key == payer || Mentions(swaps, key)
  {
    if |swaps| > 0 {
      var init, last := swaps[..|swaps| - 1], swaps[|swaps| - 1];
      TableIsExact(payer, init);
      WithAccountsKeeps(Table(payer, init), last.accounts);
      forall key ensures Mentions(swaps, key) <==> Mentions(init, key) || key in last.accounts {
        if i :| 0 <= i < |init| && key in init[i].accounts { assert key in swaps[i].accounts; }
        if key in last.accounts { assert key in swaps[|swaps| - 1].accounts; }
        if i :| 0 <= i < |swaps| && key in swaps[i].accounts {
          if i < |init| { assert key in init[i].accounts; }
        }
      }
    }
  }

  /** The payer, then all accounts of all swaps, with their repetitions. */
  function Uses(payer: Bytes, swaps: seq<SwapInstruction>): seq<Bytes>
  {
    if |swaps| == 0 then [payer] else Uses(payer, swaps[..|swaps| - 1]) + swaps[|swaps| - 1].accounts
  }

  /** The table lists what is used, and in order of first use. */
  ghost predicate InOrderOfUse(table: seq<Bytes>, uses: seq<Bytes>)
  {
    && (forall key :: key in table <==> key in uses)
    && forall p, q :: 0 <= p < q < |table| ==> Position(uses, table[p]) < Position(uses, table[q])
  }

  lemma {:induction false} PositionAppend(uses: seq<Bytes>, key: Bytes, k: Bytes)
    ensures k in uses ==> Position(uses + [key], k) == Position(uses, k)
    ensures key !in uses ==> Position(uses + [key], key) == |uses|
  {
    if |uses| > 0 {
      PositionAppend(uses[1..], key, k);
      assert (uses + [key])[1..] == uses[1..] + [key];
    }
  }

  lemma OneMoreUse(table: seq<Bytes>, uses: seq<Bytes>, key: Bytes)
    requires InOrderOfUse(table, uses)
    ensures InOrderOfUse(WithAccount(table, key), uses + [key])
  {
    hide Position;
    var t := WithAccount(table, key);
    forall k ensures k in t <==> k in uses + [key] {}
    forall p, q | 0 <= p < q < |t| ensures Position(uses + [key], t[p]) < Position(uses + [key], t[q]) {
      PositionAppend(uses, key, t[p]);
      PositionAppend(uses, key, t[q]);
      assert t[p] in table;
      PositionInside(uses, t[p]);
      if q < |table| { assert t[q] in table; }
    }
  }

  lemma PositionInside(uses: seq<Bytes>, k: Bytes)
    ensures k in uses ==> Position(uses, k) < |uses|
  {}

  lemma {:induction false} MoreUses(table: seq<Bytes>, uses: seq<Bytes>, accounts: seq<Bytes>)
    requires InOrderOfUse(table, uses)
    ensures InOrderOfUse(WithAccounts(table, accounts), uses + accounts)
  {
    hide InOrderOfUse;
    if |accounts| > 0 {
      var init, last := accounts[..|accounts| - 1], accounts[|accounts| - 1];
      MoreUses(table, uses, init);
      OneMoreUse(WithAccounts(table, init), uses + init, last);
      assert uses + init + [last] == uses + accounts;
    } else {
      assert uses + accounts == uses;
    }
  }

  lemma {:induction false} TableInOrder(payer: Bytes, swaps: seq<SwapInstruction>)
    ensures InOrderOfUse(Table(payer, swaps), Uses(payer, swaps))
  {
    if |swaps| > 0 {
      hide InOrderOfUse;
      TableInOrder(payer, swaps[..|swaps| - 1]);
      MoreUses(Table(payer, swaps[..|swaps| - 1]), Uses(payer, swaps[..|swaps| - 1]), swaps[|swaps| - 1].accounts);
    }
  }

  // ── Renumbering ──────────────────────────────────────────────────

  /** Positions are cut to a byte. */
  function Renumbered(table: seq<Bytes>, accounts: seq<Bytes>, idx: Byte): Byte
    requires idx < |accounts|
  {
    Position(table, accounts[idx]) % 256
  }

  function Remapped(table: seq<Bytes>, s: SwapInstruction): (r: Instruction)
    requires InRange(s)
    ensures |r.accountIndices| == |s.ix.accountIndices|
  {
    Instruction(Renumbered(table, s.accounts, s.ix.programIdIdx),
                seq(|s.ix.accountIndices|, k requires 0 <= k < |s.ix.accountIndices| =>
                      Renumbered(table, s.accounts, s.ix.accountIndices[k])),
                s.ix.data)
  }

  function Linked(payer: Bytes, swaps: seq<SwapInstruction>): (r: seq<Instruction>)
    requires AllInRange(swaps)
    ensures |r| == |swaps|
  {
    if |swaps| == 0 then []
    else Linked(payer, swaps[..|swaps| - 1]) + [Remapped(Table(payer, swaps), swaps[|swaps| - 1])]
  }

  method Link(payer: Bytes, swaps: seq<SwapInstruction>) returns (table: seq<Bytes>, instructions: seq<Instruction>)
    requires AllInRange(swaps)
    ensures table == Table(payer, swaps) && instructions == Linked(payer, swaps)
  {
    table := [payer];
    instructions := [];
    for i := 0 to |swaps|
      invariant AllInRange(swaps[..i])
      invariant table == Table(payer, swaps[..i]) && instructions == Linked(payer, swaps[..i])
    {
      assert InRange(swaps[i]);
      assert swaps[..i + 1][..i] == swaps[..i];
      var accounts := swaps[i].accounts;
      ghost var before := table;
      for j := 0 to |accounts|
        invariant table == WithAccounts(before, accounts[..j])
      {
        assert accounts[..j + 1][..j] == accounts[..j];
        if accounts[j] !in table { table := table + [accounts[j]]; }
      }
      assert accounts[..|accounts|] == accounts;
      instructions := instructions + [Remapped(table, swaps[i])];
    }
    assert swaps[..|swaps|] == swaps;
  }

  lemma {:induction false} LinkedAt(payer: Bytes, swaps: seq<SwapInstruction>, i: nat)
    requires AllInRange(swaps) && i < |swaps|
    ensures Linked(payer, swaps)[i] == Remapped(Table(payer, swaps[..i + 1]), swaps[i])
    decreases |swaps|
  {
    var init := swaps[..|swaps| - 1];
    if i < |init| {
      LinkedAt(payer, init, i);
      assert init[..i + 1] == swaps[..i + 1];
    } else {
      assert swaps[..i + 1] == swaps;
    }
  }

  /** An index written when instruction i was handled still finds its key in the final table,
      whatever was inserted later, exactly when its position fits in a byte. */
  lemma IndexResolves(payer: Bytes, swaps: seq<SwapInstruction>, i: nat, idx: Byte)
    requires AllInRange(swaps) && i < |swaps| && idx < |swaps[i].accounts|
    ensures var key, final := swaps[i].accounts[idx], Table(payer, swaps);
            var r := Renumbered(Table(payer, swaps[..i + 1]), swaps[i].accounts, idx);
            && key in final && r < |final|
            && (final[r] == key <==> Position(final, key) < 256)
  {
    var key, now, final := swaps[i].accounts[idx], Table(payer, swaps[..i + 1]), Table(payer, swaps);
    assert swaps[..i + 1][..i] == swaps[..i];
    WithAccountsKeeps(Table(payer, swaps[..i]), swaps[i].accounts);
    TableKeeps(payer, swaps, i + 1);
    TableIsExact(payer, swaps);
    var p, q := Position(now, key), Position(final, key);
    assert final[p] == now[p] == key;
    SamePosition(final, p, q);
  }

  lemma SamePosition(table: seq<Bytes>, p: nat, q: nat)
    requires NoDuplicates(table) && p < |table| && q < |table| && table[p] == table[q]
    ensures p == q && p % 256 < |table|
    ensures table[p % 256] == table[p] <==> p < 256
  {
    if p >= 256 { assert p % 256 < p; }
  }

  lemma {:induction false} AllNew(table: seq<Bytes>, accounts: seq<Bytes>)
    requires NoDuplicates(table + accounts)
    ensures WithAccounts(table, accounts) == table + accounts
  {
    if |accounts| > 0 {
      var init, last := accounts[..|accounts| - 1], accounts[|accounts| - 1];
      var all := table + accounts;
      assert all[|all| - 1] == last && all[..|all| - 1] == table + init;
      AllNew(table, init);
      assert last !in all[..|all| - 1];
    }
  }

  /** One instruction over 256 accounts, none of them the payer: its last account comes 256th after the
      payer, that position is cut to 0, and whatever names it now names the payer. */
  lemma LastAccountBecomesPayer(payer: Bytes, s: SwapInstruction)
    requires |s.accounts| == 256 && NoDuplicates([payer] + s.accounts) && InRange(s) && s.ix.programIdIdx == 255
    ensures var table := Table(payer, [s]);
            && Linked(payer, [s])[0].programIdIdx == 0
            && |table| == 257 && table[0] == payer && table[256] == s.accounts[255] != payer
  {
    hide InRange, Linked;
    var all := [payer] + s.accounts;
    assert [s][..0] == [];
    AllNew([payer], s.accounts);
    assert all[256] == s.accounts[255];
    SamePositionIs(all, s.accounts[255], 256);
    LinkedAt(payer, [s], 0);
    assert [s][..1] == [s];
  }

  lemma SamePositionIs(table: seq<Bytes>, key: Bytes, p: nat)
    requires NoDuplicates(table) && p < |table| && table[p] == key
    ensures Position(table, key) == p
  {}

  /** Such accounts exist: 32 bytes counting up from a payer of zeros. */
  function Key(i: nat): (key: Bytes)
    requires i < 512
    ensures |key| == 32
  {
    seq(32, j requires 0 <= j < 32 => if j == 0 then i % 256 else if j == 1 then i / 256 else 0)
  }

  lemma KeysDiffer(i: nat, j: nat)
    requires i < j < 512
    ensures Key(i) != Key(j)
  {
    assert Key(i)[0] == i % 256 && Key(i)[1] == i / 256;
    assert Key(j)[0] == j % 256 && Key(j)[1] == j / 256;
  }

  lemma LastAccountExample()
    ensures var s := SwapInstruction(seq(256, i requires 0 <= i < 256 => Key(i + 1)), Instruction(255, [], []));
            && AllInRange([s])
            && Linked(Key(0), [s])[0].programIdIdx == 0
            && |Table(Key(0), [s])| == 257 && Table(Key(0), [s])[0] == Key(0) && Table(Key(0), [s])[256] == s.accounts[255] == Key(256)
  {
    var s := SwapInstruction(seq(256, i requires 0 <= i < 256 => Key(i + 1)), Instruction(255, [], []));
    var all := [Key(0)] + s.accounts;
    forall i, j | 0 <= i < j < |all| ensures all[i] != all[j] {
      KeysDiffer(i, j);
    }
    LastAccountBecomesPayer(Key(0), s);
  }

  // ── What the linked message says ─────────────────────────────────

  /** Program, accounts and data of an instruction over a table; indices past its end mean nothing. */
  datatype Resolution = Resolution(program: Bytes, accounts: seq<Bytes>, data: Bytes) | Dangling

  function Resolved(table: seq<Bytes>, ix: Instruction): Resolution
  {
    if ix.programIdIdx < |table| && (forall k :: 0 <= k < |ix.accountIndices| ==> ix.accountIndices[k] < |table|) then
      Resolution(table[ix.programIdIdx],
                 seq(|ix.accountIndices|, k requires 0 <= k < |ix.accountIndices| && ix.accountIndices[k] < |table| =>
                       table[ix.accountIndices[k]]),
                 ix.data)
    else Dangling
  }

  /** With at most 256 accounts, every linked instruction means what it meant over its own list. */
  lemma LinkedMeansTheSame(payer: Bytes, swaps: seq<SwapInstruction>, i: nat)
    requires AllInRange(swaps) && i < |swaps| && |Table(payer, swaps)| <= 256
    ensures Resolved(Table(payer, swaps), Linked(payer, swaps)[i]) == Resolved(swaps[i].accounts, swaps[i].ix)
    ensures Resolved(swaps[i].accounts, swaps[i].ix).Resolution?
  {
    var s, final := swaps[i], Table(payer, swaps);
    var r := Linked(payer, swaps)[i];
    assert InRange(s);
    LinkedAt(payer, swaps, i);
    ResolvesInSmallTable(payer, swaps, i, s.ix.programIdIdx);
    forall k | 0 <= k < |s.ix.accountIndices|
      ensures r.accountIndices[k] < |final| && final[r.accountIndices[k]] == s.accounts[s.ix.accountIndices[k]]
    {
      ResolvesInSmallTable(payer, swaps, i, s.ix.accountIndices[k]);
    }
  }

  lemma ResolvesInSmallTable(payer: Bytes, swaps: seq<SwapInstruction>, i: nat, idx: Byte)
    requires AllInRange(swaps) && i < |swaps| && idx < |swaps[i].accounts| && |Table(payer, swaps)| <= 256
    ensures var r := Renumbered(Table(payer, swaps[..i + 1]), swaps[i].accounts, idx);
            r < |Table(payer, swaps)| && Table(payer, swaps)[r] == swaps[i].accounts[idx]
  {
    IndexResolves(payer, swaps, i, idx);
  }

  /** The transaction the executor builds. */
  function Built(payer: Bytes, blockhash: Bytes, swaps: seq<SwapInstruction>): Transaction
    requires AllInRange(swaps)
  {
    Transaction(blockhash, Linked(payer, swaps), Table(payer, swaps), 1, 0, 0)
  }

  /** From the bytes alone a reader recovers the blockhash, the payer as the first account and only signer, and for
      every swap, in order, the program, accounts and data it was given with. */
  lemma BytesMeanTheSwaps(payer: Bytes, blockhash: Bytes, swaps: seq<SwapInstruction>)
    requires AllInRange(swaps) && |Table(payer, swaps)| <= 256
    requires Sized(Built(payer, blockhash, swaps)) && Small(Built(payer, blockhash, swaps))
    ensures var r := Parsed(Serialized(Built(payer, blockhash, swaps)));
            && r.Got? && r.rest == [] && r.value.recentBlockhash == blockhash
            && r.value.numSigners == 1 && r.value.numReadonlySigned == 0 && r.value.numReadonlyUnsigned == 0
            && r.value.accountKeys != [] && r.value.accountKeys[0] == payer
            && |r.value.instructions| == |swaps|
            && forall i :: 0 <= i < |swaps| ==>
                 Resolved(r.value.accountKeys, r.value.instructions[i]) == Resolved(swaps[i].accounts, swaps[i].ix)
  {
    hide Parsed, Serialized, Resolved, Table, Linked;
    MessageRoundTrip(Built(payer, blockhash, swaps));
    TableIsExact(payer, swaps);
    forall i | 0 <= i < |swaps|
      ensures Resolved(Table(payer, swaps), Linked(payer, swaps)[i]) == Resolved(swaps[i].accounts, swaps[i].ix)
    {
      LinkedMeansTheSame(payer, swaps, i);
    }
  }
}
