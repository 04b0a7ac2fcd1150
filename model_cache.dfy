/**
 * The `tts_models` cache of the Style-Bert-VITS2 engine
 * (tts_pipeline/style_bert_vits2_tts_engine.py): `load_model` returns a cached model
 * or loads and caches it, and `is_model_loaded` asks the cache. Reading the AIVMX
 * metadata and building the model happen outside the model; their outcome is the
 * `load` parameter, a model or the error they raise.
 */
module ModelCaches {
  import opened Wrappers

  /**
   * `load_model` on the cache contents: a cached model is returned and nothing
   * changes; otherwise the load's outcome is returned, and a loaded model is cached.
   */
  function LoadStep<M, E>(models: map<string, M>, uuid: string, load: Result<M, E>)
    : (r: (map<string, M>, Result<M, E>))
    ensures uuid in models ==> r == (models, Success(models[uuid]))
    ensures uuid !in models && load.Failure? ==> r == (models, load)
    ensures r.1.Success? ==> r.0 == models[uuid := r.1.value]
    ensures r.0.Keys == models.Keys + (if r.1.Success? then {uuid} else {})
  {
    if uuid in models then (models, Success(models[uuid]))
    else match load
      case Failure(_) => (models, load)
      case Success(m) => (models[uuid := m], load)
  }

  /** Once a model has been loaded, every later load of it returns the same model and changes nothing. */
  lemma LoadIdempotent<M, E>(models: map<string, M>, uuid: string, first: Result<M, E>, later: Result<M, E>)
    requires LoadStep(models, uuid, first).1.Success?
    ensures var (after, r) := LoadStep(models, uuid, first);
      LoadStep(after, uuid, later) == (after, r)
  {
  }

  /** Loading one model leaves every other cached model where it was. */
  lemma LoadKeepsOthers<M, E>(models: map<string, M>, uuid: string, load: Result<M, E>, other: string)
    requires other != uuid && other in models
    ensures other in LoadStep(models, uuid, load).0
    ensures LoadStep(models, uuid, load).0[other] == models[other]
  {
  }

  class ModelCache<M> {
    var models: map<string, M>

    constructor()
      ensures models == map[]
    {
      models := map[];
    }

    /** `load_model`: a hit returns the cached model; a miss caches what `load` produced. */
    method LoadModel<E>(uuid: string, load: Result<M, E>) returns (r: Result<M, E>)
      modifies this
      ensures (models, r) == LoadStep(old(models), uuid, load)
    {
      if uuid in models {
        return Success(models[uuid]);
      }
      if load.Failure? {
        return load;
      }
      var model := load.value;
      models := models[uuid := model];
      return Success(model);
    }

    /** `is_model_loaded`. */
    predicate IsModelLoaded(uuid: string)
      reads this
    {
      uuid in models
    }
  }
}
