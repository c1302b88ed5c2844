/** Derivation of the registry key that addresses a model bundle:
    `{game_mode}_{difficulty}_{duration}min`. */
module Keys {
  import opened Wrappers
  import opened Text

  /** The three components a key is made of, as they appear in the key. */
  datatype KeyParts = KeyParts(gameMode: string, difficulty: int, durationText: string)

  /** `get_model_key`: the game mode, the difficulty as `str(int)`, and the
      duration as rendered by `render` (Python's `str` of the number the caller
      passes), joined by underscores, followed by `min`. */
  function ModelKey<D>(gameMode: string, difficulty: int, duration: D, render: D -> string): (k: string)
    ensures EndsWith(k, "min")
    ensures |k| > |gameMode| && k[..|gameMode|] == gameMode && k[|gameMode|] == '_'
  {
    gameMode + "_" + IntToString(difficulty) + "_" + render(duration) + "min"
  }

  /** Reads a key back, splitting from the right so that a game mode that
      itself contains underscores is kept whole. */
  function ParseKey(k: string): Option<KeyParts>
  {
    if !EndsWith(k, "min") then None
    else match SplitLast(k[..|k| - 3], '_')
      case None => None
      case Some((rest, durationText)) =>
        match SplitLast(rest, '_')
        case None => None
        case Some((gameMode, difficultyText)) =>
          match ParseInt(difficultyText)
          case None => None
          case Some(difficulty) => Some(KeyParts(gameMode, difficulty, durationText))
  }

  /** A key gives back the game mode, the difficulty and the rendered duration
      it was made from, provided the rendered duration has no underscore. */
  lemma KeyRoundTrip<D>(gameMode: string, difficulty: int, duration: D, render: D -> string)
    requires '_' !in render(duration)
    ensures ParseKey(ModelKey(gameMode, difficulty, duration, render))
            == Some(KeyParts(gameMode, difficulty, render(duration)))
  {
    var d := IntToString(difficulty);
    var t := render(duration);
    var k := ModelKey(gameMode, difficulty, duration, render);
    assert k[..|k| - 3] == (gameMode + "_" + d) + ['_'] + t;
    SplitLastAt(gameMode + "_" + d, '_', t);
    assert gameMode + "_" + d == gameMode + ['_'] + d;
    SplitLastAt(gameMode, '_', d);
    IntToStringRoundTrip(difficulty);
  }

  /** Two configurations share a key only when their game modes and
      difficulties are equal and their durations render alike: keys collide
      exactly for durations whose renderings coincide. */
  lemma KeyInjective<D>(g1: string, d1: int, t1: D, g2: string, d2: int, t2: D, render: D -> string)
    requires '_' !in render(t1) && '_' !in render(t2)
    ensures ModelKey(g1, d1, t1, render) == ModelKey(g2, d2, t2, render)
            <==> g1 == g2 && d1 == d2 && render(t1) == render(t2)
  {
    if ModelKey(g1, d1, t1, render) == ModelKey(g2, d2, t2, render) {
      KeyRoundTrip(g1, d1, t1, render);
      KeyRoundTrip(g2, d2, t2, render);
    }
  }
}
