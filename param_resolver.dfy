/** The parameter resolver of a ParameterChange proposal: it turns either an
    inline JSON blob or the node's parameter snapshot file into a `Param`. */
module ParamResolver {
  import opened GovTypes

  /** The only key the snapshot dispatch knows. */
  const DepositProcedureKey := "Gov/gov/depositProcedure"

  /** Where the snapshot lives below the node directory. */
  const ParamsFileName := "config/params.json"

  /** What `json.Unmarshal` leaves in a zero-initialised `gov.Param`, and its
      error. A syntax error leaves the Param untouched; a field of the wrong
      type is reported after the other fields have been filled. */
  datatype Unmarshalled = Unmarshalled(param: Param, err: Option<Error>)

  /** The JSON codecs the resolver relies on; their bodies live in libraries. */
  datatype Codec = Codec(
    unmarshalParam: string -> Unmarshalled,                 // json.Unmarshal into a zero gov.Param
    unmarshalDoc: string -> Result<ParameterDoc>,           // cdc.UnmarshalJSON into a ParameterDoc
    marshalDeposit: DepositProcedure -> Result<string>)     // json.Marshal of the deposit procedure

  /** What the resolver returns: Go's `(gov.Param, error)` pair. */
  datatype Resolved = Resolved(param: Param, err: Option<Error>)

  /** Joins the non-empty path elements with "/", as `path.Join` does before
      it cleans the result. The empty string only when every element is empty. */
  function JoinPath(elems: seq<string>): (p: string)
    ensures p == "" <==> forall i :: 0 <= i < |elems| ==> elems[i] == ""
    ensures elems != [] && elems[0] != "" ==> |elems[0]| <= |p| && p[..|elems[0]|] == elems[0]
  {
    if elems == [] then ""
    else if elems[0] == "" then JoinPath(elems[1..])
    else
      var rest := JoinPath(elems[1..]);
      if rest == "" then elems[0] else elems[0] + "/" + rest
  }

  /** Appending a non-empty element puts it after a separator, or alone when
      everything before it is empty. */
  lemma {:induction false} JoinPathAppend(elems: seq<string>, e: string)
    requires e != ""
    ensures JoinPath(elems + [e]) == if JoinPath(elems) == "" then e else JoinPath(elems) + "/" + e
  {
    if elems != [] {
      assert (elems + [e])[1..] == elems[1..] + [e];
      JoinPathAppend(elems[1..], e);
    } else {
      assert [e][1..] == [];
    }
  }

  /** The snapshot path `<home>/<pathStr>/config/params.json`. */
  function ParamsFilePath(home: string, pathStr: string): (p: string)
    ensures home != "" && pathStr != "" ==> p == home + "/" + pathStr + "/" + ParamsFileName
    ensures home != "" && pathStr == "" ==> p == home + "/" + ParamsFileName
    ensures home == "" && pathStr != "" ==> p == pathStr + "/" + ParamsFileName
    ensures home == "" && pathStr == "" ==> p == ParamsFileName
  {
    JoinPathAppend([home, pathStr], ParamsFileName);
    assert [home, pathStr] + [ParamsFileName] == [home, pathStr, ParamsFileName];
    assert [home, pathStr][1..] == [pathStr];
    assert [pathStr][1..] == [];
    JoinPath([home, pathStr, ParamsFileName])
  }

  /** The bytes of a `json.Marshal` whose error is discarded: nil, hence "", on failure. */
  function MarshalledOrEmpty(m: Result<string>): string
  {
    match m
    case Ok(bytes) => bytes
    case Err(_) => ""
  }

  /** `GetParamFromString`: a non-empty `paramStr` is decoded inline; an empty
      one selects the snapshot file under `home`, whose record named by
      `keyStr` becomes the value. A failed inline decode is printed and then
      dropped: that branch reports no error, and returns whatever the decoder
      had filled in. */
  function GetParamFromString(paramStr: string, pathStr: string, keyStr: string, opStr: string,
                              home: string, readFile: string -> Result<string>, codec: Codec): (r: Resolved)
    ensures r.err.Some? ==> paramStr == "" && r.param == ZeroParam
    ensures paramStr != "" ==> r.err == None
    ensures paramStr == "" && r.err == None ==> r.param.key == keyStr && r.param.op == opStr
    ensures paramStr == "" && r.param.value != "" ==> keyStr == DepositProcedureKey
  {
    if paramStr != "" then
      var decoded := codec.unmarshalParam(paramStr);
      if decoded.err.Some? then Resolved(decoded.param, None)
      else Resolved(decoded.param, decoded.err)
    else
      match readFile(ParamsFilePath(home, pathStr))
      case Err(e) => Resolved(ZeroParam, Some(e))
      case Ok(bytes) =>
        match codec.unmarshalDoc(bytes)
        case Err(e) => Resolved(ZeroParam, Some(e))
        case Ok(doc) =>
          var value :=
            if keyStr == DepositProcedureKey
            then MarshalledOrEmpty(codec.marshalDeposit(doc.govparams.depositProcedure))
            else "";
          Resolved(Param(keyStr, value, opStr), None)
  }

  // ---- Inline mode ----

  /** Inline mode never looks at the snapshot: the result depends on the
      inline decoding alone, whatever the file system, home and path hold. */
  lemma InlineModeIgnoresSnapshot(paramStr: string, pathStr1: string, pathStr2: string,
                                  keyStr1: string, keyStr2: string, opStr1: string, opStr2: string,
                                  home1: string, home2: string,
                                  read1: string -> Result<string>, read2: string -> Result<string>,
                                  codec1: Codec, codec2: Codec)
    requires paramStr != ""
    requires codec1.unmarshalParam(paramStr) == codec2.unmarshalParam(paramStr)
    ensures GetParamFromString(paramStr, pathStr1, keyStr1, opStr1, home1, read1, codec1)
         == GetParamFromString(paramStr, pathStr2, keyStr2, opStr2, home2, read2, codec2)
  {
  }

  /** A successful inline decode is returned unchanged, with no error. */
  lemma InlineDecodeReturnsDecoded(paramStr: string, pathStr: string, keyStr: string, opStr: string,
                                   home: string, readFile: string -> Result<string>, codec: Codec)
    requires paramStr != "" && codec.unmarshalParam(paramStr).err == None
    ensures GetParamFromString(paramStr, pathStr, keyStr, opStr, home, readFile, codec)
         == Resolved(codec.unmarshalParam(paramStr).param, None)
  {
  }

  /** A failed inline decode is swallowed: whatever the decoder filled in comes
      back with no error; after a syntax error that is the zero Param. */
  lemma InlineDecodeFailureSwallowed(paramStr: string, pathStr: string, keyStr: string, opStr: string,
                                     home: string, readFile: string -> Result<string>, codec: Codec)
    requires paramStr != "" && codec.unmarshalParam(paramStr).err.Some?
    ensures GetParamFromString(paramStr, pathStr, keyStr, opStr, home, readFile, codec)
         == Resolved(codec.unmarshalParam(paramStr).param, None)
    ensures codec.unmarshalParam(paramStr).param == ZeroParam ==>
              GetParamFromString(paramStr, pathStr, keyStr, opStr, home, readFile, codec) == Resolved(ZeroParam, None)
  {
  }

  // ---- File mode ----

  /** File mode reads exactly one file, `<home>/<pathStr>/config/params.json`:
      two file systems that agree on that path give the same result. */
  lemma FileModeReadsOnlyParamsFile(pathStr: string, keyStr: string, opStr: string, home: string,
                                    read1: string -> Result<string>, read2: string -> Result<string>,
                                    codec: Codec)
    requires read1(ParamsFilePath(home, pathStr)) == read2(ParamsFilePath(home, pathStr))
    ensures GetParamFromString("", pathStr, keyStr, opStr, home, read1, codec)
         == GetParamFromString("", pathStr, keyStr, opStr, home, read2, codec)
  {
  }

  /** A failed read of the snapshot is returned as is, with the zero Param. */
  lemma FileModeReadFailure(pathStr: string, keyStr: string, opStr: string, home: string,
                            readFile: string -> Result<string>, codec: Codec)
    requires readFile(ParamsFilePath(home, pathStr)).Err?
    ensures GetParamFromString("", pathStr, keyStr, opStr, home, readFile, codec)
         == Resolved(ZeroParam, Some(readFile(ParamsFilePath(home, pathStr)).error))
  {
  }

  /** A snapshot that does not decode is reported with its decoding error and the zero Param. */
  lemma FileModeDecodeFailure(pathStr: string, keyStr: string, opStr: string, home: string,
                              readFile: string -> Result<string>, codec: Codec)
    requires readFile(ParamsFilePath(home, pathStr)).Ok?
    requires codec.unmarshalDoc(readFile(ParamsFilePath(home, pathStr)).value).Err?
    ensures GetParamFromString("", pathStr, keyStr, opStr, home, readFile, codec)
         == Resolved(ZeroParam, Some(codec.unmarshalDoc(readFile(ParamsFilePath(home, pathStr)).value).error))
  {
  }

  /** A readable, decodable snapshot always resolves, to the caller's key and
      operation; the value is the re-encoded deposit procedure for the deposit
      procedure key, empty when that encoding fails (its error is dropped),
      and empty for every other key. */
  lemma FileModeSuccess(pathStr: string, keyStr: string, opStr: string, home: string,
                        readFile: string -> Result<string>, codec: Codec)
    requires readFile(ParamsFilePath(home, pathStr)).Ok?
    requires codec.unmarshalDoc(readFile(ParamsFilePath(home, pathStr)).value).Ok?
    ensures var r := GetParamFromString("", pathStr, keyStr, opStr, home, readFile, codec);
            var doc := codec.unmarshalDoc(readFile(ParamsFilePath(home, pathStr)).value).value;
            && r.err == None
            && r.param.key == keyStr
            && r.param.op == opStr
            && (keyStr == DepositProcedureKey && codec.marshalDeposit(doc.govparams.depositProcedure).Ok? ==>
                  r.param.value == codec.marshalDeposit(doc.govparams.depositProcedure).value)
            && (keyStr == DepositProcedureKey && codec.marshalDeposit(doc.govparams.depositProcedure).Err? ==>
                  r.param.value == "")
            && (keyStr != DepositProcedureKey ==> r.param.value == "")
  {
  }
}
