# Governance transaction commands of irishub, modelled in Dafny

This project models the request-resolving core of irishub's governance CLI
(`client/gov/cli/sendtx.go`): the parameter resolver `GetParamFromString`
and the bodies of the `submit-proposal`, `deposit` and `vote` commands.

- `gov_types.dfy` (module `GovTypes`): the values involved — `Param` and its
  zero value, proposal kinds, vote options, coins, addresses, the parameter
  snapshot document and the three governance messages.
- `param_resolver.dfy` (module `ParamResolver`): `GetParamFromString` as a
  pure function of its flag values, the home directory, a file reader and
  the JSON codecs. Lemmas state which branch runs and what it returns. For
  example, inline mode never depends on the file system. File mode depends
  only on the file at `<home>/<path>/config/params.json`.
- `commands.dfy` (module `Commands`): the three command bodies as methods.
  Each method returns the command's error and the list of `Step`s it took:
  collaborator calls, the building of the message and the final hand-off to
  the signing and broadcasting step. Their postconditions say which steps
  ran, in which order, what error came back and what message reached the
  hand-off.

The collaborators are not defined in this model. They are passed in as
results or as total functions: the signer's address, `ParseCoins`,
`ProposalTypeFromString`, `VoteOptionFromString`, `ValidateBasic`, the file
read, the JSON codecs and the send step. So every property holds for all
possible behaviours of these collaborators.

Three behaviours of the code that a caller may not expect:

- The inline branch drops a decode error (`client/gov/cli/sendtx.go:92-94`).
  A malformed `--param` therefore yields an empty Param, or a partly filled
  one, with no error (`InlineDecodeFailureSwallowed`).
- The key `switch` has no default case (`client/gov/cli/sendtx.go:118-122`).
  Any key other than `Gov/gov/depositProcedure` yields an empty value and no
  error (`FileModeSuccess`).
- `submit-proposal` hands its message off without calling `ValidateBasic`
  (`client/gov/cli/sendtx.go:25-74`; the last ensures of `RunSubmitProposal`).
  `deposit` and `vote` validate first (`ValidatedBeforeSubmit`).

## Model

| member | source | states |
|---|---|---|
| `ParamResolver.GetParamFromString` | client/gov/cli/sendtx.go:88-133 | An error is returned only in file mode, and always with the zero Param. Inline mode never reports an error. A file-mode success carries the caller's key and op. A non-empty value in file mode implies the key was `Gov/gov/depositProcedure`. |
| `ParamResolver.InlineModeIgnoresSnapshot` | client/gov/cli/sendtx.go:91-97 | With a non-empty `paramStr`, the result depends only on the inline decoding. The file system, home, path, key and op are never consulted. |
| `ParamResolver.InlineDecodeReturnsDecoded` | client/gov/cli/sendtx.go:92-97 | A successful inline decode is returned unchanged with a nil error. |
| `ParamResolver.InlineDecodeFailureSwallowed` | client/gov/cli/sendtx.go:92-94 | A failed inline decode returns whatever the decoder had filled in, with a nil error: the failure is swallowed. After a syntax error, which leaves the target untouched, this is the zero Param. |
| `ParamResolver.JoinPath` | client/gov/cli/sendtx.go:99 | The joined path is empty exactly when all elements are empty. A non-empty first element is a prefix of the result. |
| `ParamResolver.JoinPathAppend` | client/gov/cli/sendtx.go:99 | Joining a non-empty last element puts it after "/" following the join of the others, or alone if the others are all empty. |
| `ParamResolver.ParamsFilePath` | client/gov/cli/sendtx.go:99 | The snapshot path is `<home>/<pathStr>/config/params.json`, with an empty home or path element skipped. |
| `ParamResolver.FileModeReadsOnlyParamsFile` | client/gov/cli/sendtx.go:99-101 | In file mode, two file systems that agree on the composed snapshot path give the same result. The resolver reads no other file. |
| `ParamResolver.FileModeReadFailure` | client/gov/cli/sendtx.go:101-108 | A failed snapshot read returns that error with the zero Param. |
| `ParamResolver.FileModeDecodeFailure` | client/gov/cli/sendtx.go:110-115 | A snapshot that does not decode returns the decoding error with the zero Param. |
| `ParamResolver.FileModeSuccess` | client/gov/cli/sendtx.go:117-131 | A readable, decodable snapshot resolves with a nil error. Key and Op are the caller's. For `Gov/gov/depositProcedure`, Value is the encoding of the deposit procedure, or "" when that encoding fails, because its error is dropped. For every other key Value is "". |
| `Commands.HandOffFor` | client/gov/cli/sendtx.go:66-73 | A generate-only context prints the unsigned transaction with the context unchanged. Otherwise the context gets PrintResponse set and goes to SendOrPrintTx. The hand-off always carries exactly the one message. |
| `Commands.ResolveFor` | client/gov/cli/sendtx.go:52-57 | The Param of a ParameterChange proposal comes from the resolver with the command's param, path, key and op flags. An inline param never fails. |
| `Commands.RunSubmitProposal` | client/gov/cli/sendtx.go:25-74 | The steps run in order: address, amount, type, then the Param (only for ParameterChange). The first failure returns its error before any message is built. Other kinds carry the zero Param. The built message holds the flags and the resolved values. No `ValidateBasic` runs before the hand-off. The send step's result is returned. |
| `Commands.RunDeposit` | client/gov/cli/sendtx.go:140-174 | The steps run in order: address, then amount. A failure returns before any message is built. The Deposit message is built and validated, and a failed validation returns before the hand-off. Every hand-off follows a successful validation of the message it carries. |
| `Commands.RunVote` | client/gov/cli/sendtx.go:188-228 | The steps run in order: address, then vote option. An unknown option returns before the Vote message exists. A failed validation returns before the hand-off. Every hand-off follows a successful validation of the message it carries. |

## Left out

- Cobra command and flag registration and the viper lookups: flag values are plain inputs (`SubmitFlags`, `DepositFlags`, `VoteFlags`, and `CliContext` for the generate-only and print-response switches).
- `viper.GetInt64` for the proposal id: the id arrives as an `int64` input. Its conversion from the flag text is not modelled.
- Building the CLI and transaction contexts, signing, `PrintUnsignedStdTx` and `SendOrPrintTx`: these are reduced to a `Submit` step and an abstract `send` result.
- All console output (`fmt.Println`, `fmt.Printf`, the indented `MarshalIndent` echo of the Param): it has no effect on results.
- `os.ExpandEnv("$HOME")`: the home directory is the input `Env.home`.
- `cmn.ReadFile`: it is an abstract `readFile` function from path to contents or error.
- `json.Unmarshal`, `cdc.UnmarshalJSON` and `json.Marshal`: they are abstract codec functions. The layout of `ParameterDoc` beyond the deposit-procedure record is not part of this model, and `DepositProcedure` is an abstract type.
- `ParamResolver.JoinPath`: it joins the non-empty elements with "/". The lexical cleaning of `path.Clean` (`.`, `..`, repeated and trailing slashes inside elements) is not modelled.
- The bodies of `ParseCoins`, `ProposalTypeFromString`, `VoteOptionFromString`, `ValidateBasic` and `GetFromAddress` are not part of this model. Their results are abstract, so properties of the classifiers themselves (which names they accept) are not stated.
