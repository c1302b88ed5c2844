/** `MotivationalEngine`: the registry loaded once at construction, and the
    read-only `predict` that serves requests against it. */
module Engine {
  import opened Wrappers
  import opened Keys
  import opened Inference
  import opened Registry

  class MotivationalEngine {
    var modelsDir: string
    var models: map<string, Bundle>

    /** Sets the two fields, given the registry already built from `modelsDir`. */
    constructor (modelsDir: string, models: map<string, Bundle>)
      ensures this.modelsDir == modelsDir && this.models == models
    {
      this.modelsDir := modelsDir;
      this.models := models;
    }

    /** `MotivationalEngine(models_dir='models')`: loads every model file of
        the directory listing `names`; the construction fails when a model
        file cannot be read. */
    static method Open(names: seq<string>, load: Loader, modelsDir: string := "models")
      returns (r: Result<MotivationalEngine, LoadError>)
      ensures RegistryOf(modelsDir, names, load).Failure? ==>
                r == Failure(RegistryOf(modelsDir, names, load).error)
      ensures RegistryOf(modelsDir, names, load).Success? ==>
                && r.Success? && fresh(r.value)
                && r.value.modelsDir == modelsDir
                && r.value.models == RegistryOf(modelsDir, names, load).value
    {
      var loaded := LoadAllModels(modelsDir, names, load);
      match loaded {
        case Failure(e) =>
          r := Failure(e);
        case Success(models) =>
          var engine := new MotivationalEngine(modelsDir, models);
          r := Success(engine);
      }
    }

    /** `predict`: resolves the key, fails with "No model found" when the
        registry has no bundle for it (whatever the player data), and
        otherwise scores the player data against that bundle. It only reads
        the registry. */
    function Predict<D>(gameMode: string, difficulty: int, duration: D, render: D -> string,
                        playerData: map<string, real>): (r: Result<Prediction, Error>)
      reads this
      ensures ModelKey(gameMode, difficulty, duration, render) !in models ==>
                r == Failure(NoModelFound(ModelKey(gameMode, difficulty, duration, render)))
      ensures ModelKey(gameMode, difficulty, duration, render) in models ==>
                r == Infer(models[ModelKey(gameMode, difficulty, duration, render)], playerData)
      ensures r.Success? ==>
                var b := models[ModelKey(gameMode, difficulty, duration, render)];
                && ModelKey(gameMode, difficulty, duration, render) in models
                && r.value.cluster in b.percentileTargets
                && r.value.percentiles == b.percentileTargets[r.value.cluster]
                && r.value.clusterStats.Keys == b.clusterStats.Keys
    {
      var key := ModelKey(gameMode, difficulty, duration, render);
      if key !in models then Failure(NoModelFound(key))
      else Infer(models[key], playerData)
    }
  }
}
