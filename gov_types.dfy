/** Values exchanged by the governance CLI commands: parameters, proposal kinds,
    vote options, coins, addresses and the three governance messages. */
module GovTypes {

  /** An error value handed back by a collaborator (Go's `error`); its text is opaque here. */
  datatype Error = Error(message: string)

  datatype Option<+T> = None | Some(value: T)

  /** A collaborator's `(value, error)` pair: exactly one of the two is meaningful. */
  datatype Result<+T> = Ok(value: T) | Err(error: Error)

  /** Go's `int64`, the type of a proposal id. */
  newtype int64 = x: int | -0x8000_0000_0000_0000 <= x < 0x8000_0000_0000_0000

  /** One parameter mutation request of a ParameterChange proposal (`gov.Param`). */
  datatype Param = Param(key: string, value: string, op: string)

  /** The zero value of `gov.Param`: what `var param gov.Param` holds. */
  const ZeroParam := Param("", "", "")

  datatype ProposalKind = Text | ParameterChange | SoftwareUpgrade

  datatype VoteOption = Yes | No | NoWithVeto | Abstain

  datatype Coin = Coin(denom: string, amount: int)

  type Coins = seq<Coin>

  /** An account address (`sdk.AccAddress`). */
  datatype Address = Address(bytes: seq<bv8>)

  /** The deposit-procedure record of the node's parameter snapshot; its layout
      is defined outside the command file, so it is left abstract. */
  type DepositProcedure

  datatype GovParams = GovParams(depositProcedure: DepositProcedure)

  /** The node-local parameter snapshot (`ParameterDoc`), reduced to the one
      record the resolver can extract. */
  datatype ParameterDoc = ParameterDoc(govparams: GovParams)

  /** The three governance messages the commands build. */
  datatype Msg =
    | SubmitProposal(title: string, description: string, kind: ProposalKind,
                     proposer: Address, initialDeposit: Coins, param: Param)
    | Deposit(depositor: Address, proposalId: int64, amount: Coins)
    | Vote(voter: Address, proposalId: int64, option: VoteOption)
}
