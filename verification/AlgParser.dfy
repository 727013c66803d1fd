/**
  The parsing routines, which build their results in out-parameters by loops and accumulator recursion.
*/
module AlgParser {
  import opened Common
  import opened AlgConfig

  /** Appends the fields of algoConfig to algos; on failure the fields found so far stay in algos. */
  method SplitHcclAlgoLevel(algoConfig: Str, algos: seq<Str>) returns (ok: bool, result: seq<Str>)
    ensures ok == Split(algoConfig, ';', Some(LEVELS), algos).Some?
    ensures ok ==> Split(algoConfig, ';', Some(LEVELS), algos) == Some(result)
    decreases |algoConfig|
  {
    var remainAlgoConfig: Str := "";
    var found := Find(algoConfig, ';');
    if found == 0 || found == LastPos(algoConfig) {
      return false, algos;
    } else if found != NPOS {
      remainAlgoConfig := algoConfig[found + 1..];
    }
    result := algos + [Before(algoConfig, found)];
    if |result| > LEVELS {
      return false, result;
    }
    if remainAlgoConfig != "" {
      ok, result := SplitHcclAlgoLevel(remainAlgoConfig, result);
    } else {
      ok := true;
    }
  }

  method SplitHcclOpType(algoConfig: Str, algos: seq<Str>) returns (ok: bool, result: seq<Str>)
    ensures ok == Split(algoConfig, '/', None, algos).Some?
    ensures ok ==> Split(algoConfig, '/', None, algos) == Some(result)
    decreases |algoConfig|
  {
    var remainAlgoConfig: Str := "";
    var found := Find(algoConfig, '/');
    if found == 0 || found == LastPos(algoConfig) {
      return false, algos;
    } else if found != NPOS {
      remainAlgoConfig := algoConfig[found + 1..];
    }
    result := algos + [Before(algoConfig, found)];
    if remainAlgoConfig != "" {
      ok, result := SplitHcclOpType(remainAlgoConfig, result);
    } else {
      ok := true;
    }
  }

  method ParserHcclAlgoLevel(algoLevel: Str) returns (ok: bool, setting: Setting)
    ensures ok == ParseLevel(algoLevel).Some?
    ensures ok ==> ParseLevel(algoLevel) == Some(setting)
  {
    setting := Setting(0, DefaultAlgo);
    var found := Find(algoLevel, ':');
    if found == 0 || found == LastPos(algoLevel) {
      return false, setting;
    }
    var level := LevelOf(Before(algoLevel, found));
    if level.None? {
      return false, setting;
    }
    var algo := AlgoOf(After(algoLevel, found));
    if algo.None? {
      return false, setting;
    }
    return true, Setting(level.value, algo.value);
  }

  /** A string of settings parses exactly when it is the print of settings for distinct levels (ParseIff), and
      algType then holds their algorithms. */
  method ParseAlgoString(algoString: Str) returns (ok: bool, algType: seq<Algo>)
    ensures ok == Parse(algoString).Some?
    ensures ok ==> Parse(algoString) == Some(algType)
  {
    algType := Unset();
    var split, algoLevels := SplitHcclAlgoLevel(algoString, []);
    if !split {
      return false, algType;
    }
    for i := 0 to |algoLevels|
      invariant |algType| == LEVELS
      invariant ParseFields(algoLevels, i, algType) == ParseFields(algoLevels, 0, Unset())
    {
      var parsed, setting := ParserHcclAlgoLevel(algoLevels[i]);
      if !parsed {
        return false, algType;
      }
      ParseLevelIff(algoLevels[i], setting);
      if algType[setting.level] != DefaultAlgo {
        return false, algType;
      }
      algType := algType[setting.level := setting.algo];
    }
    ok := true;
  }

  method CheckAlgoConfigValid(algos: seq<Str>) returns (ok: bool, anyCommonConfig: bool, anySpecificConfig: bool)
    ensures ok == Consistent(algos)
    ensures ok ==> anyCommonConfig == IsCommon(algos) && anySpecificConfig == (algos != [] && !IsCommon(algos))
  {
    anyCommonConfig, anySpecificConfig := false, false;
    for i := 0 to |algos|
      invariant forall j | 0 <= j < i :: WellPlaced(algos[j])
      invariant anySpecificConfig <==> exists j | 0 <= j < i :: '=' in algos[j]
      invariant anyCommonConfig <==> exists j | 0 <= j < i :: '=' !in algos[j]
    {
      var found := Find(algos[i], '=');
      if found == 0 || found == LastPos(algos[i]) {
        assert !WellPlaced(algos[i]);
        return false, anyCommonConfig, anySpecificConfig;
      } else if found != NPOS {
        anySpecificConfig := true;
      } else {
        anyCommonConfig := true;
      }
    }
    if anyCommonConfig && anySpecificConfig {
      return false, anyCommonConfig, anySpecificConfig;
    }
    if anyCommonConfig && |algos| > 1 {
      return false, anyCommonConfig, anySpecificConfig;
    }
    assert algos != [] && !IsCommon(algos) ==> '=' in algos[0];
    ok := true;
  }
}
