/**
 * Genesis import and export of the keeper (`keeper/genesis.go`): the keeper
 * holds the `ContinuousFund` and `BudgetProposal` stores, keyed by the
 * recipient's account address.
 */
module KeeperGenesis {
  import opened Wrappers
  import opened Types
  import opened Genesis
  import opened Stores

  /** Which step of `InitGenesis` failed: a fund recipient's decoding, a fund write, or a budget recipient's decoding. */
  datatype InitError =
    | FundRecipientDecodeFailed
    | FundSetFailed
    | BudgetRecipientDecodeFailed

  function FundRecipient(cf: ContinuousFund): string {
    cf.recipient
  }

  function BudgetRecipient(bp: Budget): string {
    bp.recipientAddress
  }

  /** The continuous fund `ExportGenesis` builds from a stored one: every field but the recipient is copied. */
  function ExportedFund(cf: ContinuousFund, recipient: string): (r: ContinuousFund)
    ensures r == cf.(recipient := recipient)
  {
    ContinuousFund(recipient, cf.percentage, cf.cap, cf.expiry)
  }

  /** The budget `ExportGenesis` builds from a stored one: every field but the recipient is copied. */
  function ExportedBudget(bp: Budget, recipient: string): (r: Budget)
    ensures r == bp.(recipientAddress := recipient)
  {
    Budget(recipient, bp.totalBudget, bp.claimedAmount, bp.startTime, bp.nextClaimFrom,
           bp.tranches, bp.tranchesLeft, bp.period)
  }

  lemma FundRecordLaws()
    ensures RecordLaws(FundRecipient, ExportedFund)
  {
  }

  lemma BudgetRecordLaws()
    ensures RecordLaws(BudgetRecipient, ExportedBudget)
  {
  }

  // ---------------------------------------------------------------------------
  // The import loops, as functions of the store before them

  /**
   * The continuous-fund loop of `InitGenesis` over `cfs`, from `store`: decode
   * each recipient and write the record under it, stopping at the first decode
   * or write failure. `setFails[i]` says the i-th write fails.
   */
  function SetFunds(codec: AddressCodec, store: map<Address, ContinuousFund>, cfs: seq<ContinuousFund>, setFails: seq<bool>)
    : (r: (Outcome<InitError>, map<Address, ContinuousFund>))
    requires |setFails| == |cfs|
    ensures r.0 == Pass <==>
      (forall x :: x in cfs ==> codec.decode(x.recipient).Some?) && (forall i :: 0 <= i < |setFails| ==> !setFails[i])
    ensures r.0.Fail? ==> r.0.error != BudgetRecipientDecodeFailed
    ensures store.Keys <= r.1.Keys
    decreases |cfs|
  {
    if cfs == [] then (Pass, store)
    else
      var n := |cfs| - 1;
      assert cfs == cfs[..n] + [cfs[n]];
      assert setFails == setFails[..n] + [setFails[n]];
      var (err, written) := SetFunds(codec, store, cfs[..n], setFails[..n]);
      if err.Fail? then (err, written)
      else match codec.decode(cfs[n].recipient)
        case None => (Fail(FundRecipientDecodeFailed), written)
        case Some(a) => if setFails[n] then (Fail(FundSetFailed), written) else (Pass, written[a := cfs[n]])
  }

  /**
   * The budget loop of `InitGenesis` over `bs`, from `store`: decode each
   * recipient and write the record under it, stopping at the first decode
   * failure. A failed write leaves the store as it was and is not reported.
   */
  function SetBudgets(codec: AddressCodec, store: map<Address, Budget>, bs: seq<Budget>, setFails: seq<bool>)
    : (r: (Outcome<InitError>, map<Address, Budget>))
    requires |setFails| == |bs|
    ensures r.0 == Pass <==> forall x :: x in bs ==> codec.decode(x.recipientAddress).Some?
    ensures r.0.Fail? ==> r.0.error == BudgetRecipientDecodeFailed
    ensures store.Keys <= r.1.Keys
    decreases |bs|
  {
    if bs == [] then (Pass, store)
    else
      var n := |bs| - 1;
      assert bs == bs[..n] + [bs[n]];
      var (err, written) := SetBudgets(codec, store, bs[..n], setFails[..n]);
      if err.Fail? then (err, written)
      else match codec.decode(bs[n].recipientAddress)
        case None => (Fail(BudgetRecipientDecodeFailed), written)
        case Some(a) => (Pass, if setFails[n] then written else written[a := bs[n]])
  }

  /** `InitGenesis`: the error and the two stores after it. */
  function InitGenesisSpec(codec: AddressCodec, funds: map<Address, ContinuousFund>, budgets: map<Address, Budget>,
                           data: GenesisState, fundSetFails: seq<bool>, budgetSetFails: seq<bool>)
    : (r: (Outcome<InitError>, map<Address, ContinuousFund>, map<Address, Budget>))
    requires |fundSetFails| == |data.continuousFund| && |budgetSetFails| == |data.budget|
    ensures r.0 == Pass <==>
      && (forall cf :: cf in data.continuousFund ==> codec.decode(cf.recipient).Some?)
      && (forall i :: 0 <= i < |fundSetFails| ==> !fundSetFails[i])
      && (forall bp :: bp in data.budget ==> codec.decode(bp.recipientAddress).Some?)
    ensures r.0.Fail? && r.0.error != BudgetRecipientDecodeFailed ==> r.2 == budgets
    ensures funds.Keys <= r.1.Keys && budgets.Keys <= r.2.Keys
  {
    var (err, funds') := SetFunds(codec, funds, data.continuousFund, fundSetFails);
    if err.Fail? then (err, funds', budgets)
    else
      var (err', budgets') := SetBudgets(codec, budgets, data.budget, budgetSetFails);
      (err', funds', budgets')
  }

  /** One more pass of the fund loop, after the entries before `i` were written. */
  lemma SetFundsStep(codec: AddressCodec, store: map<Address, ContinuousFund>, cfs: seq<ContinuousFund>,
                     setFails: seq<bool>, i: nat, written: map<Address, ContinuousFund>)
    requires |setFails| == |cfs| && i < |cfs|
    requires SetFunds(codec, store, cfs[..i], setFails[..i]) == (Pass, written)
    ensures SetFunds(codec, store, cfs[..i + 1], setFails[..i + 1]) ==
      match codec.decode(cfs[i].recipient)
      case None => (Fail(FundRecipientDecodeFailed), written)
      case Some(a) => if setFails[i] then (Fail(FundSetFailed), written) else (Pass, written[a := cfs[i]])
  {
    assert cfs[..i + 1][..i] == cfs[..i] && setFails[..i + 1][..i] == setFails[..i];
  }

  /** One more pass of the budget loop, after the entries before `j` were attempted. */
  lemma SetBudgetsStep(codec: AddressCodec, store: map<Address, Budget>, bs: seq<Budget>,
                       setFails: seq<bool>, j: nat, written: map<Address, Budget>)
    requires |setFails| == |bs| && j < |bs|
    requires SetBudgets(codec, store, bs[..j], setFails[..j]) == (Pass, written)
    ensures SetBudgets(codec, store, bs[..j + 1], setFails[..j + 1]) ==
      match codec.decode(bs[j].recipientAddress)
      case None => (Fail(BudgetRecipientDecodeFailed), written)
      case Some(a) => (Pass, if setFails[j] then written else written[a := bs[j]])
  {
    assert bs[..j + 1][..j] == bs[..j] && setFails[..j + 1][..j] == setFails[..j];
  }

  /** Once the fund loop stopped on a prefix, the whole loop stops there too. */
  lemma {:induction false} SetFundsStopped(codec: AddressCodec, store: map<Address, ContinuousFund>,
                                           cfs: seq<ContinuousFund>, setFails: seq<bool>, m: nat)
    requires |setFails| == |cfs| && m <= |cfs|
    requires SetFunds(codec, store, cfs[..m], setFails[..m]).0.Fail?
    ensures SetFunds(codec, store, cfs, setFails) == SetFunds(codec, store, cfs[..m], setFails[..m])
    decreases |cfs|
  {
    if m < |cfs| {
      var n := |cfs| - 1;
      var prev := SetFunds(codec, store, cfs[..n], setFails[..n]);
      assert prev == SetFunds(codec, store, cfs[..m], setFails[..m]) by {
        assert cfs[..n][..m] == cfs[..m] && setFails[..n][..m] == setFails[..m];
        SetFundsStopped(codec, store, cfs[..n], setFails[..n], m);
      }
      assert SetFunds(codec, store, cfs, setFails) == prev;
    } else {
      assert cfs[..m] == cfs && setFails[..m] == setFails;
    }
  }

  /** Once the budget loop stopped on a prefix, the whole loop stops there too. */
  lemma {:induction false} SetBudgetsStopped(codec: AddressCodec, store: map<Address, Budget>,
                                             bs: seq<Budget>, setFails: seq<bool>, m: nat)
    requires |setFails| == |bs| && m <= |bs|
    requires SetBudgets(codec, store, bs[..m], setFails[..m]).0.Fail?
    ensures SetBudgets(codec, store, bs, setFails) == SetBudgets(codec, store, bs[..m], setFails[..m])
    decreases |bs|
  {
    if m < |bs| {
      var n := |bs| - 1;
      var prev := SetBudgets(codec, store, bs[..n], setFails[..n]);
      assert prev == SetBudgets(codec, store, bs[..m], setFails[..m]) by {
        assert bs[..n][..m] == bs[..m] && setFails[..n][..m] == setFails[..m];
        SetBudgetsStopped(codec, store, bs[..n], setFails[..n], m);
      }
      assert SetBudgets(codec, store, bs, setFails) == prev;
    } else {
      assert bs[..m] == bs && setFails[..m] == setFails;
    }
  }

  /** While every recipient decodes and every write succeeds, the fund loop writes each record in turn. */
  lemma {:induction false} SetFundsWrites(codec: AddressCodec, store: map<Address, ContinuousFund>,
                                          cfs: seq<ContinuousFund>, setFails: seq<bool>)
    requires |setFails| == |cfs|
    requires AllDecode(codec, cfs, FundRecipient)
    requires forall i :: 0 <= i < |setFails| ==> !setFails[i]
    ensures SetFunds(codec, store, cfs, setFails) == (Pass, Put(codec, store, cfs, FundRecipient))
    decreases |cfs|
  {
    if cfs != [] {
      var n := |cfs| - 1;
      assert cfs == cfs[..n] + [cfs[n]];
      assert AllDecode(codec, cfs[..n], FundRecipient);
      SetFundsWrites(codec, store, cfs[..n], setFails[..n]);
    }
  }

  /** While every recipient decodes, the budget loop writes each record whose write succeeds. */
  lemma {:induction false} SetBudgetsWrites(codec: AddressCodec, store: map<Address, Budget>,
                                            bs: seq<Budget>, setFails: seq<bool>)
    requires |setFails| == |bs|
    requires AllDecode(codec, bs, BudgetRecipient)
    ensures AllDecode(codec, Kept(bs, setFails), BudgetRecipient)
    ensures SetBudgets(codec, store, bs, setFails) == (Pass, Put(codec, store, Kept(bs, setFails), BudgetRecipient))
    decreases |bs|
  {
    if bs != [] {
      var n := |bs| - 1;
      assert bs == bs[..n] + [bs[n]];
      assert AllDecode(codec, bs[..n], BudgetRecipient);
      SetBudgetsWrites(codec, store, bs[..n], setFails[..n]);
      var init := Kept(bs[..n], setFails[..n]);
      assert bs[n] in bs;
      var a := codec.decode(bs[n].recipientAddress).value;
      assert SetBudgets(codec, store, bs, setFails) ==
        (Pass, if setFails[n] then Put(codec, store, init, BudgetRecipient) else Put(codec, store, init, BudgetRecipient)[a := bs[n]]);
      if setFails[n] {
        assert Kept(bs, setFails) == init;
      } else {
        assert Kept(bs, setFails) == init + [bs[n]];
        assert (init + [bs[n]])[..|init|] == init;
      }
    }
  }

  /**
   * The fund loop stops at entry `i` with `err` when the entries before it were
   * written and entry `i` fails to decode or to be written.
   */
  lemma SetFundsStopsAt(codec: AddressCodec, store: map<Address, ContinuousFund>, cfs: seq<ContinuousFund>,
                        setFails: seq<bool>, i: nat, err: InitError)
    requires |setFails| == |cfs| && i < |cfs|
    requires AllDecode(codec, cfs[..i], FundRecipient)
    requires forall k :: 0 <= k < i ==> !setFails[k]
    requires || (codec.decode(cfs[i].recipient).None? && err == FundRecipientDecodeFailed)
             || (codec.decode(cfs[i].recipient).Some? && setFails[i] && err == FundSetFailed)
    ensures SetFunds(codec, store, cfs, setFails) == (Fail(err), Put(codec, store, cfs[..i], FundRecipient))
  {
    var before := SetFunds(codec, store, cfs[..i], setFails[..i]);
    assert before == (Pass, Put(codec, store, cfs[..i], FundRecipient)) by {
      SetFundsWrites(codec, store, cfs[..i], setFails[..i]);
    }
    assert SetFunds(codec, store, cfs[..i + 1], setFails[..i + 1]) == (Fail(err), before.1) by {
      assert cfs[..i + 1][..i] == cfs[..i] && setFails[..i + 1][..i] == setFails[..i];
    }
    SetFundsStopped(codec, store, cfs, setFails, i + 1);
  }

  /**
   * The budget loop stops at entry `j` when the entries before it decode and
   * entry `j` does not; the budgets before it were attempted.
   */
  lemma SetBudgetsStopsAt(codec: AddressCodec, store: map<Address, Budget>, bs: seq<Budget>, setFails: seq<bool>, j: nat)
    requires |setFails| == |bs| && j < |bs|
    requires AllDecode(codec, bs[..j], BudgetRecipient)
    requires codec.decode(bs[j].recipientAddress).None?
    ensures AllDecode(codec, Kept(bs[..j], setFails[..j]), BudgetRecipient)
    ensures SetBudgets(codec, store, bs, setFails) ==
      (Fail(BudgetRecipientDecodeFailed), Put(codec, store, Kept(bs[..j], setFails[..j]), BudgetRecipient))
  {
    var kept := Kept(bs[..j], setFails[..j]);
    var before := SetBudgets(codec, store, bs[..j], setFails[..j]);
    assert AllDecode(codec, kept, BudgetRecipient) && before == (Pass, Put(codec, store, kept, BudgetRecipient)) by {
      SetBudgetsWrites(codec, store, bs[..j], setFails[..j]);
    }
    assert SetBudgets(codec, store, bs[..j + 1], setFails[..j + 1]) == (Fail(BudgetRecipientDecodeFailed), before.1) by {
      assert bs[..j + 1][..j] == bs[..j] && setFails[..j + 1][..j] == setFails[..j];
    }
    SetBudgetsStopped(codec, store, bs, setFails, j + 1);
  }

  /**
   * When every recipient decodes, an address ends up holding the last budget
   * that decodes to it and whose write did not fail.
   */
  lemma {:induction false} SetBudgetsLastWriter(codec: AddressCodec, store: map<Address, Budget>, bs: seq<Budget>,
                                                setFails: seq<bool>, k: Address, i: nat)
    requires |setFails| == |bs| && AllDecode(codec, bs, BudgetRecipient)
    requires i < |bs| && !setFails[i] && codec.decode(bs[i].recipientAddress) == Some(k)
    requires forall j :: i < j < |bs| && !setFails[j] ==> codec.decode(bs[j].recipientAddress) != Some(k)
    ensures SetBudgets(codec, store, bs, setFails).0 == Pass
    ensures k in SetBudgets(codec, store, bs, setFails).1 && SetBudgets(codec, store, bs, setFails).1[k] == bs[i]
    decreases |bs|
  {
    var n := |bs| - 1;
    assert forall x :: x in bs[..n] ==> x in bs;
    var prev := SetBudgets(codec, store, bs[..n], setFails[..n]);
    if i < n {
      SetBudgetsLastWriter(codec, store, bs[..n], setFails[..n], k, i);
    }
    assert bs[..n + 1] == bs && setFails[..n + 1] == setFails;
    SetBudgetsStep(codec, store, bs, setFails, n, prev.1);
  }

  // ---------------------------------------------------------------------------
  // What InitGenesis does, case by case

  /**
   * A continuous-fund recipient that fails to decode aborts the import: the
   * funds before it are written, nothing after it is, and the budget store is
   * untouched.
   */
  lemma InitStopsAtUndecodableFund(codec: AddressCodec, funds: map<Address, ContinuousFund>, budgets: map<Address, Budget>,
                                   data: GenesisState, fundSetFails: seq<bool>, budgetSetFails: seq<bool>, i: nat)
    requires |fundSetFails| == |data.continuousFund| && |budgetSetFails| == |data.budget|
    requires i < |data.continuousFund|
    requires AllDecode(codec, data.continuousFund[..i], FundRecipient)
    requires forall k :: 0 <= k < i ==> !fundSetFails[k]
    requires codec.decode(data.continuousFund[i].recipient).None?
    ensures InitGenesisSpec(codec, funds, budgets, data, fundSetFails, budgetSetFails) ==
      (Fail(FundRecipientDecodeFailed),
       Put(codec, funds, data.continuousFund[..i], FundRecipient),
       budgets)
  {
    SetFundsStopsAt(codec, funds, data.continuousFund, fundSetFails, i, FundRecipientDecodeFailed);
  }

  /**
   * A failed continuous-fund write aborts the import: the funds before it are
   * written, nothing after it is, and the budget store is untouched.
   */
  lemma InitStopsAtFailedFundWrite(codec: AddressCodec, funds: map<Address, ContinuousFund>, budgets: map<Address, Budget>,
                                   data: GenesisState, fundSetFails: seq<bool>, budgetSetFails: seq<bool>, i: nat)
    requires |fundSetFails| == |data.continuousFund| && |budgetSetFails| == |data.budget|
    requires i < |data.continuousFund|
    requires AllDecode(codec, data.continuousFund[..i], FundRecipient)
    requires forall k :: 0 <= k < i ==> !fundSetFails[k]
    requires codec.decode(data.continuousFund[i].recipient).Some? && fundSetFails[i]
    ensures InitGenesisSpec(codec, funds, budgets, data, fundSetFails, budgetSetFails) ==
      (Fail(FundSetFailed),
       Put(codec, funds, data.continuousFund[..i], FundRecipient),
       budgets)
  {
    SetFundsStopsAt(codec, funds, data.continuousFund, fundSetFails, i, FundSetFailed);
  }

  /**
   * A budget recipient that fails to decode aborts the import, after every
   * continuous fund has been written and the budgets before it have been
   * attempted.
   */
  lemma InitStopsAtUndecodableBudget(codec: AddressCodec, funds: map<Address, ContinuousFund>, budgets: map<Address, Budget>,
                                     data: GenesisState, fundSetFails: seq<bool>, budgetSetFails: seq<bool>, j: nat)
    requires |fundSetFails| == |data.continuousFund| && |budgetSetFails| == |data.budget|
    requires AllDecode(codec, data.continuousFund, FundRecipient)
    requires forall k :: 0 <= k < |fundSetFails| ==> !fundSetFails[k]
    requires j < |data.budget|
    requires AllDecode(codec, data.budget[..j], BudgetRecipient)
    requires codec.decode(data.budget[j].recipientAddress).None?
    ensures AllDecode(codec, Kept(data.budget[..j], budgetSetFails[..j]), BudgetRecipient)
    ensures InitGenesisSpec(codec, funds, budgets, data, fundSetFails, budgetSetFails) ==
      (Fail(BudgetRecipientDecodeFailed),
       Put(codec, funds, data.continuousFund, FundRecipient),
       Put(codec, budgets, Kept(data.budget[..j], budgetSetFails[..j]), BudgetRecipient))
  {
    SetFundsWrites(codec, funds, data.continuousFund, fundSetFails);
    SetBudgetsStopsAt(codec, budgets, data.budget, budgetSetFails, j);
  }

  /**
   * When every recipient decodes and no fund write fails, the import succeeds
   * even if budget writes fail: those budgets are simply missing from the store.
   */
  lemma InitIgnoresBudgetWriteFailures(codec: AddressCodec, funds: map<Address, ContinuousFund>, budgets: map<Address, Budget>,
                                       data: GenesisState, fundSetFails: seq<bool>, budgetSetFails: seq<bool>)
    requires |fundSetFails| == |data.continuousFund| && |budgetSetFails| == |data.budget|
    requires AllDecode(codec, data.continuousFund, FundRecipient)
    requires forall k :: 0 <= k < |fundSetFails| ==> !fundSetFails[k]
    requires AllDecode(codec, data.budget, BudgetRecipient)
    ensures AllDecode(codec, Kept(data.budget, budgetSetFails), BudgetRecipient)
    ensures InitGenesisSpec(codec, funds, budgets, data, fundSetFails, budgetSetFails) ==
      (Pass,
       Put(codec, funds, data.continuousFund, FundRecipient),
       Put(codec, budgets, Kept(data.budget, budgetSetFails), BudgetRecipient))
    ensures (forall k :: 0 <= k < |budgetSetFails| ==> budgetSetFails[k]) ==>
      InitGenesisSpec(codec, funds, budgets, data, fundSetFails, budgetSetFails).2 == budgets
  {
    SetFundsWrites(codec, funds, data.continuousFund, fundSetFails);
    SetBudgetsWrites(codec, budgets, data.budget, budgetSetFails);
  }

  // ---------------------------------------------------------------------------
  // Round trips

  /**
   * Importing the exported continuous funds into an empty store, with no write
   * failing, succeeds and gives the store with each fund's recipient replaced
   * by its key's encoded address.
   */
  lemma ExportThenSetFunds(codec: AddressCodec, funds: map<Address, ContinuousFund>, fundOrder: seq<Address>, setFails: seq<bool>)
    requires KeysRoundTrip(codec, funds.Keys) && WalkOrder(fundOrder, funds.Keys)
    requires |setFails| == |fundOrder| && forall k :: 0 <= k < |setFails| ==> !setFails[k]
    ensures SetFunds(codec, map[], Export(codec, funds, fundOrder, ExportedFund), setFails) ==
      (Pass, Relabelled(codec, funds, ExportedFund))
    ensures (forall k :: k in funds ==> funds[k].recipient == codec.encode(k)) ==>
      Relabelled(codec, funds, ExportedFund) == funds
  {
    FundRecordLaws();
    ExportThenPut(codec, funds, fundOrder, FundRecipient, ExportedFund);
    SetFundsWrites(codec, map[], Export(codec, funds, fundOrder, ExportedFund), setFails);
  }

  /**
   * Importing the exported budgets into an empty store succeeds whichever
   * writes fail; when none fails it gives the store with each budget's
   * recipient replaced by its key's encoded address.
   */
  lemma ExportThenSetBudgets(codec: AddressCodec, budgets: map<Address, Budget>, budgetOrder: seq<Address>, setFails: seq<bool>)
    requires KeysRoundTrip(codec, budgets.Keys) && WalkOrder(budgetOrder, budgets.Keys)
    requires |setFails| == |budgetOrder|
    ensures SetBudgets(codec, map[], Export(codec, budgets, budgetOrder, ExportedBudget), setFails).0 == Pass
    ensures (forall k :: 0 <= k < |setFails| ==> !setFails[k]) ==>
      SetBudgets(codec, map[], Export(codec, budgets, budgetOrder, ExportedBudget), setFails) ==
        (Pass, Relabelled(codec, budgets, ExportedBudget))
    ensures (forall k :: k in budgets ==> budgets[k].recipientAddress == codec.encode(k)) ==>
      Relabelled(codec, budgets, ExportedBudget) == budgets
  {
    var e := Export(codec, budgets, budgetOrder, ExportedBudget);
    BudgetRecordLaws();
    ExportThenPut(codec, budgets, budgetOrder, BudgetRecipient, ExportedBudget);
    ExportedBudgetsWrites(codec, e, setFails);
  }

  /** Budgets that all decode are written, bar the failed writes, and the import passes. */
  lemma ExportedBudgetsWrites(codec: AddressCodec, e: seq<Budget>, setFails: seq<bool>)
    requires |setFails| == |e| && AllDecode(codec, e, BudgetRecipient)
    ensures SetBudgets(codec, map[], e, setFails).0 == Pass
    ensures (forall k :: 0 <= k < |setFails| ==> !setFails[k]) ==>
      SetBudgets(codec, map[], e, setFails) == (Pass, Put(codec, map[], e, BudgetRecipient))
  {
    SetBudgetsWrites(codec, map[], e, setFails);
    if forall k :: 0 <= k < |setFails| ==> !setFails[k] {
      assert Kept(e, setFails) == e;
    }
  }

  /**
   * Exporting the stores in any walk order and importing the result into empty
   * stores, with no fund write failing, succeeds whichever budget writes fail;
   * when none fails either, it gives the stores with each record carrying its
   * key's encoded address as recipient.
   */
  lemma ExportThenInitGenesis(codec: AddressCodec, funds: map<Address, ContinuousFund>, budgets: map<Address, Budget>,
                              fundOrder: seq<Address>, budgetOrder: seq<Address>,
                              fundSetFails: seq<bool>, budgetSetFails: seq<bool>)
    requires KeysRoundTrip(codec, funds.Keys) && KeysRoundTrip(codec, budgets.Keys)
    requires WalkOrder(fundOrder, funds.Keys) && WalkOrder(budgetOrder, budgets.Keys)
    requires |fundSetFails| == |fundOrder| && forall k :: 0 <= k < |fundSetFails| ==> !fundSetFails[k]
    requires |budgetSetFails| == |budgetOrder|
    ensures var data := NewGenesisState(Export(codec, funds, fundOrder, ExportedFund),
                                        Export(codec, budgets, budgetOrder, ExportedBudget));
      InitGenesisSpec(codec, map[], map[], data, fundSetFails, budgetSetFails).0 == Pass
    ensures var data := NewGenesisState(Export(codec, funds, fundOrder, ExportedFund),
                                        Export(codec, budgets, budgetOrder, ExportedBudget));
      (forall k :: 0 <= k < |budgetSetFails| ==> !budgetSetFails[k]) ==>
        InitGenesisSpec(codec, map[], map[], data, fundSetFails, budgetSetFails) ==
          (Pass, Relabelled(codec, funds, ExportedFund), Relabelled(codec, budgets, ExportedBudget))
  {
    ExportThenSetFunds(codec, funds, fundOrder, fundSetFails);
    ExportThenSetBudgets(codec, budgets, budgetOrder, budgetSetFails);
  }

  /**
   * A stored key whose encoded address the codec refuses makes the import of
   * the export fail, whichever writes fail.
   */
  lemma ExportThenInitGenesisRefused(codec: AddressCodec, funds: map<Address, ContinuousFund>, budgets: map<Address, Budget>,
                                     fundOrder: seq<Address>, budgetOrder: seq<Address>,
                                     fundSetFails: seq<bool>, budgetSetFails: seq<bool>, key: Address)
    requires WalkOrder(fundOrder, funds.Keys) && WalkOrder(budgetOrder, budgets.Keys)
    requires |fundSetFails| == |fundOrder| && |budgetSetFails| == |budgetOrder|
    requires key in funds || key in budgets
    requires codec.decode(codec.encode(key)).None?
    ensures var data := NewGenesisState(Export(codec, funds, fundOrder, ExportedFund),
                                        Export(codec, budgets, budgetOrder, ExportedBudget));
      InitGenesisSpec(codec, map[], map[], data, fundSetFails, budgetSetFails).0.Fail?
  {
    if key in funds {
      FundRecordLaws();
      ExportRefused(codec, funds, fundOrder, FundRecipient, ExportedFund, key);
    } else {
      BudgetRecordLaws();
      ExportRefused(codec, budgets, budgetOrder, BudgetRecipient, ExportedBudget, key);
    }
  }

  /**
   * Importing records with distinct, canonical recipients into empty stores
   * succeeds, and exporting the stores in any walk order gives back the same
   * continuous funds and the same budgets, as multisets.
   */
  lemma InitGenesisThenExport(codec: AddressCodec, data: GenesisState, fundSetFails: seq<bool>, budgetSetFails: seq<bool>,
                              fundOrder: seq<Address>, budgetOrder: seq<Address>)
    requires |fundSetFails| == |data.continuousFund| && forall k :: 0 <= k < |fundSetFails| ==> !fundSetFails[k]
    requires |budgetSetFails| == |data.budget| && forall k :: 0 <= k < |budgetSetFails| ==> !budgetSetFails[k]
    requires forall cf :: cf in data.continuousFund ==> Canonical(codec, cf.recipient)
    requires forall bp :: bp in data.budget ==> Canonical(codec, bp.recipientAddress)
    requires DistinctAddresses(codec, data.continuousFund, FundRecipient)
    requires DistinctAddresses(codec, data.budget, BudgetRecipient)
    requires WalkOrder(fundOrder, InitGenesisSpec(codec, map[], map[], data, fundSetFails, budgetSetFails).1.Keys)
    requires WalkOrder(budgetOrder, InitGenesisSpec(codec, map[], map[], data, fundSetFails, budgetSetFails).2.Keys)
    ensures var (err, funds, budgets) := InitGenesisSpec(codec, map[], map[], data, fundSetFails, budgetSetFails);
      && err == Pass
      && multiset(Export(codec, funds, fundOrder, ExportedFund)) == multiset(data.continuousFund)
      && multiset(Export(codec, budgets, budgetOrder, ExportedBudget)) == multiset(data.budget)
  {
    var cfs := data.continuousFund;
    var bs := data.budget;
    assert AllDecode(codec, cfs, FundRecipient) && AllDecode(codec, bs, BudgetRecipient);
    var funds := Put(codec, map[], cfs, FundRecipient);
    var budgets := Put(codec, map[], bs, BudgetRecipient);
    assert InitGenesisSpec(codec, map[], map[], data, fundSetFails, budgetSetFails) == (Pass, funds, budgets) by {
      SetFundsWrites(codec, map[], cfs, fundSetFails);
      SetBudgetsWrites(codec, map[], bs, budgetSetFails);
      assert Kept(bs, budgetSetFails) == bs;
    }
    assert multiset(Export(codec, funds, fundOrder, ExportedFund)) == multiset(cfs) by {
      FundRecordLaws();
      PutThenExport(codec, cfs, fundOrder, FundRecipient, ExportedFund);
    }
    assert multiset(Export(codec, budgets, budgetOrder, ExportedBudget)) == multiset(bs) by {
      BudgetRecordLaws();
      PutThenExport(codec, bs, budgetOrder, BudgetRecipient, ExportedBudget);
    }
  }

  // ---------------------------------------------------------------------------
  // The keeper

  class Keeper {
    /** The account keeper's address codec. */
    const codec: AddressCodec
    /** The `ContinuousFund` store. */
    var continuousFund: map<Address, ContinuousFund>
    /** The `BudgetProposal` store. */
    var budgetProposal: map<Address, Budget>

    constructor (codec: AddressCodec)
      ensures this.codec == codec && continuousFund == map[] && budgetProposal == map[]
    {
      this.codec := codec;
      continuousFund := map[];
      budgetProposal := map[];
    }

    /**
     * Writes every continuous fund, then every budget, under its decoded
     * recipient. `fundSetFails[i]` and `budgetSetFails[j]` say which store
     * writes fail.
     */
    method InitGenesis(data: GenesisState, fundSetFails: seq<bool>, budgetSetFails: seq<bool>) returns (err: Outcome<InitError>)
      requires |fundSetFails| == |data.continuousFund| && |budgetSetFails| == |data.budget|
      modifies this
      ensures (err, continuousFund, budgetProposal) ==
        InitGenesisSpec(codec, old(continuousFund), old(budgetProposal), data, fundSetFails, budgetSetFails)
    {
      var cfs := data.continuousFund;
      var i := 0;
      while i < |cfs|
        invariant 0 <= i <= |cfs|
        invariant SetFunds(codec, old(continuousFund), cfs[..i], fundSetFails[..i]) == (Pass, continuousFund)
        invariant budgetProposal == old(budgetProposal)
      {
        SetFundsStep(codec, old(continuousFund), cfs, fundSetFails, i, continuousFund);
        var recipientAddress := codec.decode(cfs[i].recipient);
        if recipientAddress.None? {
          err := Fail(FundRecipientDecodeFailed);
          SetFundsStopped(codec, old(continuousFund), cfs, fundSetFails, i + 1);
          return;
        }
        if fundSetFails[i] {
          err := Fail(FundSetFailed);
          SetFundsStopped(codec, old(continuousFund), cfs, fundSetFails, i + 1);
          return;
        }
        continuousFund := continuousFund[recipientAddress.value := cfs[i]];
        i := i + 1;
      }
      assert cfs[..i] == cfs && fundSetFails[..i] == fundSetFails;

      var bs := data.budget;
      var j := 0;
      while j < |bs|
        invariant 0 <= j <= |bs|
        invariant SetBudgets(codec, old(budgetProposal), bs[..j], budgetSetFails[..j]) == (Pass, budgetProposal)
        invariant SetFunds(codec, old(continuousFund), cfs, fundSetFails) == (Pass, continuousFund)
      {
        SetBudgetsStep(codec, old(budgetProposal), bs, budgetSetFails, j, budgetProposal);
        var recipientAddress := codec.decode(bs[j].recipientAddress);
        if recipientAddress.None? {
          err := Fail(BudgetRecipientDecodeFailed);
          SetBudgetsStopped(codec, old(budgetProposal), bs, budgetSetFails, j + 1);
          return;
        }
        // A failed write is not reported (genesis.go:28).
        if !budgetSetFails[j] {
          budgetProposal := budgetProposal[recipientAddress.value := bs[j]];
        }
        j := j + 1;
      }
      assert bs[..j] == bs && budgetSetFails[..j] == budgetSetFails;
      err := Pass;
    }

    /**
     * Walks both stores and rebuilds the two lists: one entry per stored record,
     * in walk order, each under its key's encoded address. Reads the stores
     * only.
     */
    method ExportGenesis() returns (gs: GenesisState, ghost fundOrder: seq<Address>, ghost budgetOrder: seq<Address>)
      ensures WalkOrder(fundOrder, continuousFund.Keys) && WalkOrder(budgetOrder, budgetProposal.Keys)
      ensures gs == NewGenesisState(Export(codec, continuousFund, fundOrder, ExportedFund),
                                    Export(codec, budgetProposal, budgetOrder, ExportedBudget))
      ensures |gs.continuousFund| == |continuousFund| && |gs.budget| == |budgetProposal|
    {
      var cf: seq<ContinuousFund> := [];
      fundOrder := [];
      var unvisited := continuousFund.Keys;
      while unvisited != {}
        invariant unvisited <= continuousFund.Keys
        invariant forall i, j :: 0 <= i < j < |fundOrder| ==> fundOrder[i] != fundOrder[j]
        invariant forall k :: k in fundOrder <==> k in continuousFund && k !in unvisited
        invariant cf == Export(codec, continuousFund, fundOrder, ExportedFund)
        decreases unvisited
      {
        var key :| key in unvisited;
        cf := cf + [ExportedFund(continuousFund[key], codec.encode(key))];
        fundOrder := fundOrder + [key];
        unvisited := unvisited - {key};
      }

      var budget: seq<Budget> := [];
      budgetOrder := [];
      unvisited := budgetProposal.Keys;
      while unvisited != {}
        invariant unvisited <= budgetProposal.Keys
        invariant forall i, j :: 0 <= i < j < |budgetOrder| ==> budgetOrder[i] != budgetOrder[j]
        invariant forall k :: k in budgetOrder <==> k in budgetProposal && k !in unvisited
        invariant budget == Export(codec, budgetProposal, budgetOrder, ExportedBudget)
        decreases unvisited
      {
        var key :| key in unvisited;
        budget := budget + [ExportedBudget(budgetProposal[key], codec.encode(key))];
        budgetOrder := budgetOrder + [key];
        unvisited := unvisited - {key};
      }

      gs := NewGenesisState(cf, budget);
      WalkOrderLength(fundOrder, continuousFund.Keys);
      WalkOrderLength(budgetOrder, budgetProposal.Keys);
    }
  }
}
