/** The repository's demo request, worked through the model. */
module Scenario {
  import opened Wrappers
  import opened Text
  import opened Keys
  import opened Inference
  import opened Registry
  import opened Engine

  /** The key of the demo's model file is its name without the suffix. */
  lemma DemoKey()
    ensures KeyOf("DualFlow_-1_10min_gmm_v1.pkl") == "DualFlow_-1_10min"
  {
    var stem := "DualFlow_-1_10min";
    assert stem + Suffix + [] == "DualFlow_-1_10min_gmm_v1.pkl";
    // an occurrence of the suffix would start with an underscore, and the
    // stem has none early enough to leave room for the whole suffix
    forall i: nat ensures !OccursAt(stem, Suffix, i) {
      if i + |Suffix| <= |stem| {
        assert stem[i..i + |Suffix|][0] == stem[i];
        if i == 0 {
          assert stem[0] == 'D';
        } else if i == 1 {
          assert stem[1] == 'u';
        } else if i == 2 {
          assert stem[2] == 'a';
        } else if i == 3 {
          assert stem[3] == 'l';
        } else if i == 4 {
          assert stem[4] == 'F';
        } else if i == 5 {
          assert stem[5] == 'l';
        } else {
          assert stem[6] == 'o';
        }
      }
    }
    KeyOfAfterClean(stem, []);
    assert KeyOf([]) == [];
  }

  /** Loading a listing with only the demo's model file gives a registry with
      its bundle under its key. */
  lemma DemoRegistry(load: Loader, b: Bundle)
    requires load("models/models", "DualFlow_-1_10min_gmm_v1.pkl") == Some(b)
    ensures RegistryOf("models/models", ["DualFlow_-1_10min_gmm_v1.pkl"], load)
            == Success(map["DualFlow_-1_10min" := b])
  {
    var name := "DualFlow_-1_10min_gmm_v1.pkl";
    DemoKey();
    assert IsModelFile(name);
    assert [name][..0] == [];
  }

  /** The keys the demo request resolves to for a float and an integer duration. */
  lemma DemoRequestKeys(render: real -> string)
    requires render(10.0) == "10.0"
    ensures ModelKey("DualFlow", -1, 10.0, render) == "DualFlow_-1_10.0min"
    ensures ModelKey("DualFlow", -1, 10, IntToString) == "DualFlow_-1_10min"
  {
    assert NatToString(1) == [DigitChar(1)] == "1";
    assert IntToString(-1) == "-1";
    assert NatToString(10) == NatToString(1) + [DigitChar(0)];
    assert [DigitChar(0)] == "0";
    assert IntToString(10) == "10";
  }

  /** The demo request `predict('DualFlow', -1, 10.0, ...)` against a
      directory holding `DualFlow_-1_10min_gmm_v1.pkl` (the registry
      `DemoRegistry` derives): since `str(10.0)` is
      `10.0`, the request asks for `DualFlow_-1_10.0min` and finds no model;
      the same request with the integer duration `10` finds the bundle. */
  lemma DemoFloatDurationMissesModel(engine: MotivationalEngine, b: Bundle,
                                      render: real -> string, playerData: map<string, real>)
    requires engine.models == map["DualFlow_-1_10min" := b]
    requires render(10.0) == "10.0"
    ensures engine.Predict("DualFlow", -1, 10.0, render, playerData)
            == Failure(NoModelFound("DualFlow_-1_10.0min"))
    ensures engine.Predict("DualFlow", -1, 10, IntToString, playerData) == Infer(b, playerData)
  {
    DemoRequestKeys(render);
    assert |"DualFlow_-1_10.0min"| != |"DualFlow_-1_10min"|;
  }
}
