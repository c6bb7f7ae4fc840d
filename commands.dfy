/** The bodies of the `submit-proposal`, `deposit` and `vote` commands: each is
    a pipeline of early returns that looks up the signer's address, resolves
    its inputs, builds one governance message and hands it to the signing and
    broadcasting step. Every call to a collaborator is recorded as a `Step`,
    so the contracts can say which steps ran, in which order, and what was
    handed off. */
module Commands {
  import opened GovTypes
  import opened ParamResolver

  /** The CLI context value a command builds (`context.CLIContext`), reduced to
      the two flags the commands read or set. */
  datatype CliContext = CliContext(generateOnly: bool, printResponse: bool)

  /** What reaches the signing and broadcasting collaborator. */
  datatype HandOff =
    | PrintUnsigned(ctx: CliContext, msgs: seq<Msg>)   // utils.PrintUnsignedStdTx
    | SendOrPrint(ctx: CliContext, msgs: seq<Msg>)     // utils.SendOrPrintTx

  /** One call of a command body into a collaborator, or the building of its message. */
  datatype Step =
    | LookupAddress                                    // cliCtx.GetFromAddress
    | ParseAmount(input: string)                       // cliCtx.ParseCoins
    | ClassifyProposal(name: string)                   // gov.ProposalTypeFromString
    | ResolveParam(paramStr: string, pathStr: string, keyStr: string, opStr: string)
    | ClassifyVote(option: string)                     // gov.VoteOptionFromString
    | Build(msg: Msg)                                  // gov.NewMsgSubmitProposal / NewMsgDeposit / NewMsgVote
    | Validate(msg: Msg)                               // msg.ValidateBasic
    | Submit(tx: HandOff)

  /** The collaborators of the command bodies, as their results or as total functions. */
  datatype Env = Env(
    fromAddress: Result<Address>,
    parseCoins: string -> Result<Coins>,
    proposalTypeFromString: string -> Result<ProposalKind>,
    voteOptionFromString: string -> Result<VoteOption>,
    validateBasic: Msg -> Option<Error>,
    home: string,                                      // the expansion of $HOME
    readFile: string -> Result<string>,
    codec: Codec,
    send: HandOff -> Option<Error>)

  /** The flag values `submit-proposal` reads. */
  datatype SubmitFlags = SubmitFlags(title: string, description: string, proposalType: string,
                                     deposit: string, param: string,
                                     path: string, key: string, op: string)

  /** The flag values `deposit` reads; the proposal id is already an integer. */
  datatype DepositFlags = DepositFlags(proposalId: int64, deposit: string)

  /** The flag values `vote` reads; the proposal id is already an integer. */
  datatype VoteFlags = VoteFlags(proposalId: int64, option: string)

  /** The common tail of every command: a generate-only context prints the
      unsigned transaction as it is; otherwise the context asks for the
      response to be printed and the message is signed and broadcast. */
  function HandOffFor(ctx: CliContext, msg: Msg): (h: HandOff)
    ensures h.msgs == [msg]
    ensures h.PrintUnsigned? <==> ctx.generateOnly
    ensures h.ctx.generateOnly == ctx.generateOnly
    ensures h.ctx.printResponse == (ctx.printResponse || !ctx.generateOnly)
  {
    if ctx.generateOnly then PrintUnsigned(ctx, [msg])
    else SendOrPrint(ctx.(printResponse := true), [msg])
  }

  /** The Param a ParameterChange proposal of these flags carries, as the resolver finds it. */
  function ResolveFor(flags: SubmitFlags, env: Env): (r: Resolved)
    ensures flags.param != "" ==> r.err == None
  {
    GetParamFromString(flags.param, flags.path, flags.key, flags.op, env.home, env.readFile, env.codec)
  }

  /** No message was built and nothing was handed off. */
  predicate NothingBuilt(steps: seq<Step>) {
    forall i :: 0 <= i < |steps| ==> !steps[i].Build? && !steps[i].Submit?
  }

  /** Every hand-off follows a successful `ValidateBasic` of the message it carries. */
  ghost predicate ValidatedBeforeSubmit(steps: seq<Step>, validateBasic: Msg -> Option<Error>) {
    forall j :: 0 <= j < |steps| && steps[j].Submit? ==>
      exists i :: 0 <= i < j && steps[i].Validate? && validateBasic(steps[i].msg) == None
                  && steps[j].tx.msgs == [steps[i].msg]
  }

  /** `submit-proposal`: address, initial deposit, proposal type, and for a
      ParameterChange proposal the Param, in that order; the first failure is
      returned before any message is built. Other kinds carry the zero Param.
      The message is handed off without `ValidateBasic`. */
  method RunSubmitProposal(flags: SubmitFlags, ctx: CliContext, env: Env)
    returns (err: Option<Error>, steps: seq<Step>)
    ensures env.fromAddress.Err? ==>
              steps == [LookupAddress] && err == Some(env.fromAddress.error)
    ensures env.fromAddress.Ok? && env.parseCoins(flags.deposit).Err? ==>
              steps == [LookupAddress, ParseAmount(flags.deposit)]
              && err == Some(env.parseCoins(flags.deposit).error)
    ensures env.fromAddress.Ok? && env.parseCoins(flags.deposit).Ok?
            && env.proposalTypeFromString(flags.proposalType).Err? ==>
              steps == [LookupAddress, ParseAmount(flags.deposit), ClassifyProposal(flags.proposalType)]
              && err == Some(env.proposalTypeFromString(flags.proposalType).error)
    ensures env.fromAddress.Ok? && env.parseCoins(flags.deposit).Ok?
            && env.proposalTypeFromString(flags.proposalType).Ok? ==>
              var kind := env.proposalTypeFromString(flags.proposalType).value;
              var resolved := ResolveFor(flags, env);
              var prefix := [LookupAddress, ParseAmount(flags.deposit), ClassifyProposal(flags.proposalType)]
                            + (if kind == ParameterChange
                               then [ResolveParam(flags.param, flags.path, flags.key, flags.op)] else []);
              if kind == ParameterChange && resolved.err.Some? then
                steps == prefix && err == resolved.err
              else
                var msg := SubmitProposal(flags.title, flags.description, kind,
                                          env.fromAddress.value, env.parseCoins(flags.deposit).value,
                                          if kind == ParameterChange then resolved.param else ZeroParam);
                steps == prefix + [Build(msg), Submit(HandOffFor(ctx, msg))]
                && err == env.send(HandOffFor(ctx, msg))
    ensures ResolveParam(flags.param, flags.path, flags.key, flags.op) in steps <==>
              env.fromAddress.Ok? && env.parseCoins(flags.deposit).Ok?
              && env.proposalTypeFromString(flags.proposalType) == Ok(ParameterChange)
    ensures err.Some? && !NothingBuilt(steps) ==> steps[|steps| - 1].Submit?
    ensures forall i :: 0 <= i < |steps| ==> !steps[i].Validate?
  {
    var cliCtx := ctx;
    steps := [LookupAddress];
    var fromAddr := env.fromAddress;
    if fromAddr.Err? {
      return Some(fromAddr.error), steps;
    }
    steps := steps + [ParseAmount(flags.deposit)];
    var amount := env.parseCoins(flags.deposit);
    if amount.Err? {
      return Some(amount.error), steps;
    }
    steps := steps + [ClassifyProposal(flags.proposalType)];
    var proposalType := env.proposalTypeFromString(flags.proposalType);
    if proposalType.Err? {
      return Some(proposalType.error), steps;
    }
    var param := ZeroParam;
    if proposalType.value == ParameterChange {
      steps := steps + [ResolveParam(flags.param, flags.path, flags.key, flags.op)];
      var resolved := GetParamFromString(flags.param, flags.path, flags.key, flags.op,
                                         env.home, env.readFile, env.codec);
      if resolved.err.Some? {
        return resolved.err, steps;
      }
      param := resolved.param;
    }
    var msg := SubmitProposal(flags.title, flags.description, proposalType.value,
                              fromAddr.value, amount.value, param);
    steps := steps + [Build(msg)];
    var tx;
    if cliCtx.generateOnly {
      tx := PrintUnsigned(cliCtx, [msg]);
    } else {
      cliCtx := cliCtx.(printResponse := true);
      tx := SendOrPrint(cliCtx, [msg]);
    }
    steps := steps + [Submit(tx)];
    err := env.send(tx);
  }

  /** `deposit`: address, then amount; the Deposit message is validated and
      only a message that passes `ValidateBasic` is handed off. */
  method RunDeposit(flags: DepositFlags, ctx: CliContext, env: Env)
    returns (err: Option<Error>, steps: seq<Step>)
    ensures env.fromAddress.Err? ==>
              steps == [LookupAddress] && err == Some(env.fromAddress.error)
    ensures env.fromAddress.Ok? && env.parseCoins(flags.deposit).Err? ==>
              steps == [LookupAddress, ParseAmount(flags.deposit)]
              && err == Some(env.parseCoins(flags.deposit).error)
    ensures env.fromAddress.Ok? && env.parseCoins(flags.deposit).Ok? ==>
              var msg := Deposit(env.fromAddress.value, flags.proposalId, env.parseCoins(flags.deposit).value);
              var built := [LookupAddress, ParseAmount(flags.deposit), Build(msg), Validate(msg)];
              if env.validateBasic(msg).Some? then
                steps == built && err == env.validateBasic(msg)
              else
                steps == built + [Submit(HandOffFor(ctx, msg))] && err == env.send(HandOffFor(ctx, msg))
    ensures ValidatedBeforeSubmit(steps, env.validateBasic)
  {
    var cliCtx := ctx;
    steps := [LookupAddress];
    var depositerAddr := env.fromAddress;
    if depositerAddr.Err? {
      return Some(depositerAddr.error), steps;
    }
    steps := steps + [ParseAmount(flags.deposit)];
    var amount := env.parseCoins(flags.deposit);
    if amount.Err? {
      return Some(amount.error), steps;
    }
    var msg := Deposit(depositerAddr.value, flags.proposalId, amount.value);
    steps := steps + [Build(msg), Validate(msg)];
    var invalid := env.validateBasic(msg);
    if invalid.Some? {
      return invalid, steps;
    }
    var tx;
    if cliCtx.generateOnly {
      tx := PrintUnsigned(cliCtx, [msg]);
    } else {
      cliCtx := cliCtx.(printResponse := true);
      tx := SendOrPrint(cliCtx, [msg]);
    }
    steps := steps + [Submit(tx)];
    assert steps[3].Validate?;
    err := env.send(tx);
  }

  /** `vote`: address, then vote option; an unknown option stops the command
      before the Vote message exists, and only a message that passes
      `ValidateBasic` is handed off. */
  method RunVote(flags: VoteFlags, ctx: CliContext, env: Env)
    returns (err: Option<Error>, steps: seq<Step>)
    ensures env.fromAddress.Err? ==>
              steps == [LookupAddress] && err == Some(env.fromAddress.error)
    ensures env.fromAddress.Ok? && env.voteOptionFromString(flags.option).Err? ==>
              steps == [LookupAddress, ClassifyVote(flags.option)]
              && err == Some(env.voteOptionFromString(flags.option).error)
    ensures env.fromAddress.Ok? && env.voteOptionFromString(flags.option).Ok? ==>
              var msg := Vote(env.fromAddress.value, flags.proposalId, env.voteOptionFromString(flags.option).value);
              var built := [LookupAddress, ClassifyVote(flags.option), Build(msg), Validate(msg)];
              if env.validateBasic(msg).Some? then
                steps == built && err == env.validateBasic(msg)
              else
                steps == built + [Submit(HandOffFor(ctx, msg))] && err == env.send(HandOffFor(ctx, msg))
    ensures ValidatedBeforeSubmit(steps, env.validateBasic)
  {
    var cliCtx := ctx;
    steps := [LookupAddress];
    var voterAddr := env.fromAddress;
    if voterAddr.Err? {
      return Some(voterAddr.error), steps;
    }
    steps := steps + [ClassifyVote(flags.option)];
    var byteVoteOption := env.voteOptionFromString(flags.option);
    if byteVoteOption.Err? {
      return Some(byteVoteOption.error), steps;
    }
    var msg := Vote(voterAddr.value, flags.proposalId, byteVoteOption.value);
    steps := steps + [Build(msg), Validate(msg)];
    var invalid := env.validateBasic(msg);
    if invalid.Some? {
      return invalid, steps;
    }
    var tx;
    if cliCtx.generateOnly {
      tx := PrintUnsigned(cliCtx, [msg]);
    } else {
      cliCtx := cliCtx.(printResponse := true);
      tx := SendOrPrint(cliCtx, [msg]);
    }
    steps := steps + [Submit(tx)];
    assert steps[3].Validate?;
    err := env.send(tx);
  }
}
