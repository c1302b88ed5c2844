/** Building the model registry from the model directory's file names
    (`_load_all_models`). */
module Registry {
  import opened Wrappers
  import opened Text
  import opened Inference

  /** The file-name suffix that marks a serialized model bundle. */
  const Suffix: string := "_gmm_v1.pkl"

  /** The load fails, naming the file whose bundle could not be read. */
  datatype LoadError = Unreadable(fileName: string)

  /** The directory's listing and the deserializer are inputs: `load(dir, f)`
      is the bundle stored in file `f` of `dir`, or `None` when reading it raises. */
  type Loader = (string, string) -> Option<Bundle>

  /** `fname.endswith('_gmm_v1.pkl')`: the name is a stem followed by the suffix. */
  function IsModelFile(fileName: string): (b: bool)
    ensures b ==> |Suffix| <= |fileName| && OccursAt(fileName, Suffix, |fileName| - |Suffix|)
    ensures forall stem {:trigger stem + Suffix} :: fileName == stem + Suffix ==> b
  {
    EndsWith(fileName, Suffix)
  }

  /** The suffix cannot overlap itself. */
  lemma SuffixUnbordered()
    ensures Unbordered(Suffix)
  {
    forall k | 0 < k < |Suffix| ensures Suffix[..k] != Suffix[|Suffix| - k..] {
      assert Suffix[..k][0] == '_';
      if k == 7 {
        assert Suffix[..k][1] == 'g' && Suffix[|Suffix| - k..][1] == 'v';
      } else if k == 1 {
        assert Suffix[10] == 'l';
      } else if k == 2 {
        assert Suffix[9] == 'k';
      } else if k == 3 {
        assert Suffix[8] == 'p';
      } else if k == 4 {
        assert Suffix[7] == '.';
      } else if k == 5 {
        assert Suffix[6] == '1';
      } else if k == 6 {
        assert Suffix[5] == 'v';
      } else if k == 8 {
        assert Suffix[3] == 'm';
      } else if k == 9 {
        assert Suffix[2] == 'm';
      } else {
        assert Suffix[1] == 'g';
      }
    }
  }

  /** The registry key of a model file: `fname.replace('_gmm_v1.pkl', '')`.
      It is the name itself exactly when the suffix text occurs nowhere in the
      name, and strictly shorter otherwise. */
  function KeyOf(fileName: string): (k: string)
    ensures |k| <= |fileName|
    ensures k == fileName <==> forall i: nat :: !OccursAt(fileName, Suffix, i)
    ensures k != fileName ==> |k| < |fileName|
  {
    RemoveAllChangesIff(fileName, Suffix);
    RemoveAll(fileName, Suffix)
  }

  /** For a file name that carries the suffix once, at its end, the key is the
      name without that suffix. */
  lemma KeyOfStripsSuffix(fileName: string)
    requires IsModelFile(fileName)
    requires forall i: nat :: i < |fileName| - |Suffix| ==> !OccursAt(fileName, Suffix, i)
    ensures KeyOf(fileName) + Suffix == fileName
  {
    RemoveAllTrailingOnly(fileName, Suffix);
  }

  /** Every occurrence of the suffix text goes, not only the trailing one:
      taking a name apart at its first occurrence, the key is the part before
      it followed by the key of the rest. With `KeyOf`'s own contract for names
      without an occurrence, this fixes the key of every name. */
  lemma KeyOfAfterClean(a: string, b: string)
    requires forall i: nat :: !OccursAt(a, Suffix, i)
    ensures KeyOf(a + Suffix + b) == a + KeyOf(b)
  {
    SuffixUnbordered();
    RemoveAllAfterClean(a, Suffix, b);
  }

  /** The registry the loop has built after the files `names`, in listing
      order: non-model files are skipped, a later file with the same key
      replaces the earlier bundle, and the first unreadable model file aborts. */
  function RegistryOf(dir: string, names: seq<string>, load: Loader): (r: Result<map<string, Bundle>, LoadError>)
    ensures r.Failure? ==> r.error.fileName in names && IsModelFile(r.error.fileName)
                           && load(dir, r.error.fileName).None?
    decreases |names|
  {
    if names == [] then Success(map[])
    else
      var prior := RegistryOf(dir, names[..|names| - 1], load);
      var f := names[|names| - 1];
      if prior.Failure? || !IsModelFile(f) then prior
      else match load(dir, f)
        case None => Failure(Unreadable(f))
        case Some(b) => Success(prior.value[KeyOf(f) := b])
  }

  /** The model files among `names`, in order. */
  function ModelFiles(names: seq<string>): (r: seq<string>)
    ensures |r| <= |names|
    ensures forall f :: f in r <==> f in names && IsModelFile(f)
    decreases |names|
  {
    if names == [] then []
    else ModelFiles(names[..|names| - 1]) + (if IsModelFile(names[|names| - 1]) then [names[|names| - 1]] else [])
  }

  /** `_load_all_models`: one pass over the listing, inserting each model
      file's bundle under its key. */
  method LoadAllModels(dir: string, names: seq<string>, load: Loader) returns (r: Result<map<string, Bundle>, LoadError>)
    ensures r == RegistryOf(dir, names, load)
  {
    var models: map<string, Bundle> := map[];
    var i := 0;
    while i < |names|
      invariant 0 <= i <= |names|
      invariant RegistryOf(dir, names[..i], load) == Success(models)
    {
      var fileName := names[i];
      assert names[..i + 1][..i] == names[..i];
      if IsModelFile(fileName) {
        var key := KeyOf(fileName);
        match load(dir, fileName) {
          case None =>
            RegistryFailureIsFinal(dir, names, i + 1, load);
            return Failure(Unreadable(fileName));
          case Some(bundle) =>
            models := models[key := bundle];
        }
      }
      i := i + 1;
    }
    assert names[..i] == names;
    return Success(models);
  }

  /** Once a prefix of the listing fails to load, so does the whole listing,
      with the same error. */
  lemma {:induction false} RegistryFailureIsFinal(dir: string, names: seq<string>, k: nat, load: Loader)
    requires k <= |names|
    requires RegistryOf(dir, names[..k], load).Failure?
    ensures RegistryOf(dir, names, load) == RegistryOf(dir, names[..k], load)
    decreases |names|
  {
    if k < |names| {
      var init := names[..|names| - 1];
      assert init[..k] == names[..k];
      RegistryFailureIsFinal(dir, init, k, load);
    } else {
      assert names[..k] == names;
    }
  }

  /** The load succeeds exactly when every model file can be read; when it
      fails, it names the first model file that cannot. */
  lemma {:induction false} RegistryLoadsIff(dir: string, names: seq<string>, load: Loader)
    ensures RegistryOf(dir, names, load).Success? <==>
            forall i :: 0 <= i < |names| && IsModelFile(names[i]) ==> load(dir, names[i]).Some?
    ensures RegistryOf(dir, names, load).Failure? ==>
            exists j :: 0 <= j < |names|
              && RegistryOf(dir, names, load).error == Unreadable(names[j])
              && IsModelFile(names[j]) && load(dir, names[j]).None?
              && forall i :: 0 <= i < j && IsModelFile(names[i]) ==> load(dir, names[i]).Some?
    decreases |names|
  {
    if names != [] {
      var init := names[..|names| - 1];
      var n := |names| - 1;
      var f := names[n];
      RegistryLoadsIff(dir, init, load);
      assert forall i :: 0 <= i < |init| ==> init[i] == names[i];
      var prior := RegistryOf(dir, init, load);
      if prior.Failure? {
        assert RegistryOf(dir, names, load) == prior;
        var j :| 0 <= j < |init| && prior.error == Unreadable(init[j])
                 && IsModelFile(init[j]) && load(dir, init[j]).None?
                 && forall i :: 0 <= i < j && IsModelFile(init[i]) ==> load(dir, init[i]).Some?;
        assert names[j] == init[j];
      } else if IsModelFile(f) && load(dir, f).None? {
        assert RegistryOf(dir, names, load) == Failure(Unreadable(f));
        assert forall i :: 0 <= i < n && IsModelFile(names[i]) ==> load(dir, names[i]).Some?;
      } else {
        assert RegistryOf(dir, names, load).Success?;
      }
    }
  }

  /** The registry's keys are exactly the keys of the model files listed:
      a file becomes a key only if its name ends with the suffix. */
  lemma {:induction false} RegistryKeys(dir: string, names: seq<string>, load: Loader)
    requires RegistryOf(dir, names, load).Success?
    ensures RegistryOf(dir, names, load).value.Keys == set f | f in names && IsModelFile(f) :: KeyOf(f)
    decreases |names|
  {
    if names != [] {
      var init := names[..|names| - 1];
      assert names == init + [names[|names| - 1]];
      RegistryKeys(dir, init, load);
    }
  }

  /** Last write wins: a model file's bundle is the one stored under its key
      unless a later model file in the listing has the same key. */
  lemma {:induction false} RegistryLastWriteWins(dir: string, names: seq<string>, load: Loader, i: nat)
    requires RegistryOf(dir, names, load).Success?
    requires i < |names| && IsModelFile(names[i])
    requires forall j :: i < j < |names| && IsModelFile(names[j]) ==> KeyOf(names[j]) != KeyOf(names[i])
    ensures load(dir, names[i]).Some?
    ensures KeyOf(names[i]) in RegistryOf(dir, names, load).value
            && RegistryOf(dir, names, load).value[KeyOf(names[i])] == load(dir, names[i]).value
    decreases |names|
  {
    var init := names[..|names| - 1];
    RegistryKeys(dir, names, load);
    assert KeyOf(names[i]) in RegistryOf(dir, names, load).value.Keys;
    if i < |names| - 1 {
      assert init[i] == names[i];
      assert forall j :: i < j < |init| ==> init[j] == names[j];
      RegistryLastWriteWins(dir, init, load, i);
    }
  }

  /** The registry never has more entries than there are model files. */
  lemma {:induction false} RegistrySizeBound(dir: string, names: seq<string>, load: Loader)
    requires RegistryOf(dir, names, load).Success?
    ensures |RegistryOf(dir, names, load).value| <= |ModelFiles(names)|
    decreases |names|
  {
    if names != [] {
      RegistrySizeBound(dir, names[..|names| - 1], load);
    }
  }

  /** With no two model files sharing a key, there is one entry per model file. */
  lemma {:induction false} RegistrySizeExact(dir: string, names: seq<string>, load: Loader)
    requires RegistryOf(dir, names, load).Success?
    requires forall i, j :: 0 <= i < j < |names| && IsModelFile(names[i]) && IsModelFile(names[j])
               ==> KeyOf(names[i]) != KeyOf(names[j])
    ensures |RegistryOf(dir, names, load).value| == |ModelFiles(names)|
    decreases |names|
  {
    if names != [] {
      var init := names[..|names| - 1];
      var f := names[|names| - 1];
      assert forall i :: 0 <= i < |init| ==> init[i] == names[i];
      RegistrySizeExact(dir, init, load);
      RegistryKeys(dir, init, load);
      if IsModelFile(f) {
        assert KeyOf(f) !in RegistryOf(dir, init, load).value;
      }
    }
  }

  /** Only the model files matter: listing the other files or not gives the
      same registry. */
  lemma {:induction false} RegistryIgnoresOtherFiles(dir: string, names: seq<string>, load: Loader)
    ensures RegistryOf(dir, ModelFiles(names), load) == RegistryOf(dir, names, load)
    decreases |names|
  {
    if names != [] {
      var init := names[..|names| - 1];
      var f := names[|names| - 1];
      RegistryIgnoresOtherFiles(dir, init, load);
      var kept := ModelFiles(names);
      if IsModelFile(f) {
        assert kept == ModelFiles(init) + [f];
        assert kept[..|kept| - 1] == ModelFiles(init) && kept[|kept| - 1] == f;
        assert RegistryOf(dir, kept, load) == RegistryOf(dir, names, load);
      } else {
        assert kept == ModelFiles(init);
        assert RegistryOf(dir, names, load) == RegistryOf(dir, init, load);
      }
    }
  }
}
