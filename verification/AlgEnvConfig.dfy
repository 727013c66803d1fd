/**
  The configuration object: its table of one vector of algorithms per operation, filled in place by the
  parsing routines.
*/
module AlgEnvConfig {
  import opened Common
  import opened AlgConfig
  import opened AlgTable
  import AlgParser

  class AlgEnvConfig {
    var hcclAlgoConfig: Table

    /** At first no operation has an algorithm set; cmdMax is the number of operations. */
    constructor (cmdMax: nat)
      requires cmdMax > 13
      ensures hcclAlgoConfig == seq(cmdMax, _ => Unset())
    {
      hcclAlgoConfig := seq(cmdMax, _ => Unset());
    }

    /** Gives every operation the same vector, one after the other. */
    method SetAll(algType: seq<Algo>)
      modifies this
      ensures hcclAlgoConfig == ForAll(old(hcclAlgoConfig), algType)
    {
      for opType := 0 to |hcclAlgoConfig|
        invariant |hcclAlgoConfig| == |old(hcclAlgoConfig)|
        invariant forall c | 0 <= c < opType :: hcclAlgoConfig[c] == algType
      {
        hcclAlgoConfig := hcclAlgoConfig[opType := algType];
      }
    }

    method SetCommonAlgType(algos: seq<Str>) returns (ok: bool)
      requires algos != []
      modifies this
      ensures Outcome(ok, hcclAlgoConfig) == SetCommon(old(hcclAlgoConfig), algos)
    {
      var parsed, algType := AlgParser.ParseAlgoString(algos[0]);
      if !parsed {
        return false;
      }
      SetAll(algType);
      return true;
    }

    /** The first loop: items for all other operations. */
    method SetOthers(algos: seq<Str>) returns (ok: bool)
      modifies this
      ensures Outcome(ok, hcclAlgoConfig) == OthersPass(old(hcclAlgoConfig), algos, 0)
    {
      for i := 0 to |algos|
        invariant OthersPass(hcclAlgoConfig, algos, i) == OthersPass(old(hcclAlgoConfig), algos, 0)
      {
        if OpString(algos[i]) == "others" {
          var parsed, algType := AlgParser.ParseAlgoString(Remain(algos[i]));
          if !parsed {
            return false;
          }
          SetAll(algType);
        }
      }
      return true;
    }

    /** The second loop: every item must be for an operation with a name. */
    method SetNamed(algos: seq<Str>) returns (ok: bool)
      modifies this
      ensures Outcome(ok, hcclAlgoConfig) == NamedPass(old(hcclAlgoConfig), algos, 0)
    {
      for i := 0 to |algos|
        invariant NamedPass(hcclAlgoConfig, algos, i) == NamedPass(old(hcclAlgoConfig), algos, 0)
      {
        var optype := CmdOf(OpString(algos[i]));
        if optype.None? {
          return false;
        }
        var parsed, algType := AlgParser.ParseAlgoString(Remain(algos[i]));
        if !parsed || algType[0] == Null {
          return false;
        }
        CmdStrings(OpString(algos[i]));
        hcclAlgoConfig := hcclAlgoConfig[optype.value := algType];
      }
      return true;
    }

    /** Accepts exactly the printed items (SetSpecificIff); a failed call leaves what it set before. */
    method SetSpecificAlgType(algos: seq<Str>) returns (ok: bool)
      modifies this
      ensures Outcome(ok, hcclAlgoConfig) == SetSpecific(old(hcclAlgoConfig), algos)
    {
      ok := SetOthers(algos);
      if !ok {
        return;
      }
      ok := SetNamed(algos);
      if !ok {
        return;
      }
      hcclAlgoConfig := hcclAlgoConfig[ALLTOALLV := hcclAlgoConfig[ALLTOALL]];
      hcclAlgoConfig := hcclAlgoConfig[ALLTOALLVC := hcclAlgoConfig[ALLTOALL]];
    }

    /** Accepts exactly the printed configurations (AcceptedIff), which then mean what Means says. */
    method SetHcclAlgoConfig(hcclAlgo: Str) returns (ok: bool)
      modifies this
      ensures Outcome(ok, hcclAlgoConfig) == SetConfig(old(hcclAlgoConfig), hcclAlgo)
    {
      var algoConfig: Str := RemoveSpaces(hcclAlgo);
      if algoConfig == "" {
        return true;
      }
      var split, algoPerOptype := AlgParser.SplitHcclOpType(algoConfig, []);
      if !split {
        return false;
      }
      var valid, anyCommonConfig, _ := AlgParser.CheckAlgoConfigValid(algoPerOptype);
      if !valid {
        return false;
      }
      if anyCommonConfig {
        ok := SetCommonAlgType(algoPerOptype);
      } else {
        ok := SetSpecificAlgType(algoPerOptype);
      }
    }
  }
}
