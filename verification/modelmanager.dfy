/** The model page: the add-model form, the model list with masked keys, deletion, and the
    checkbox selection the test page evaluates. The in-memory list mirrors the store: it is
    loaded from it and every change is applied to both. */
module ModelManager {

  import opened Wrappers
  import opened Text
  import opened Seqs
  import opened Entities
  import Storage

  // ---------------------------------------------------------------------------------------
  // Masking API keys
  // ---------------------------------------------------------------------------------------

  const FullMask := "****"
  const Ellipsis := "..."

  /** `maskApiKey`: short or absent keys (an absent key is the empty string) are hidden
      entirely; longer ones show their first and last four characters. */
  function MaskApiKey(apiKey: string): (r: string)
    ensures |apiKey| < 8 ==> r == FullMask
    ensures |apiKey| >= 8 ==> |r| == 11 && r[4..7] == Ellipsis
    ensures |apiKey| >= 8 ==> r[..4] == apiKey[..4] && r[7..] == apiKey[|apiKey| - 4..]
  {
    if |apiKey| < 8 then FullMask
    else apiKey[..4] + Ellipsis + apiKey[|apiKey| - 4..]
  }

  /** What a mask reveals of a key: its first and last four characters and nothing else. Two
      long keys mask alike exactly when those agree, and every short key masks alike. */
  lemma MaskRevealsOnlyEnds(a: string, b: string)
    ensures |a| >= 8 && |b| >= 8 ==>
              (MaskApiKey(a) == MaskApiKey(b) <==> a[..4] == b[..4] && a[|a| - 4..] == b[|b| - 4..])
    ensures |a| < 8 && |b| < 8 ==> MaskApiKey(a) == MaskApiKey(b)
    ensures |a| < 8 <= |b| ==> MaskApiKey(a) != MaskApiKey(b)
  {
  }

  // ---------------------------------------------------------------------------------------
  // Adding a model
  // ---------------------------------------------------------------------------------------

  /** The add-model form as read on submit. A price input missing from the page reads as
      `None` (`?.value` gives `undefined`). */
  datatype ModelForm = ModelForm(
    provider: string,
    modelName: string,
    modelId: string,
    apiKey: string,
    inputPrice: Option<string>,
    outputPrice: Option<string>)

  const ProviderAlert := "请选择提供商"
  const NameAlert := "请输入模型名称"
  const ModelIdAlert := "请选择模型ID"
  const ApiKeyAlert := "请输入API Key"
  const CustomCurrency := "USD"

  /** A price input counts as filled when it holds a non-empty string (JavaScript truthiness). */
  predicate Filled(p: Option<string>) {
    p.Some? && p.value != ""
  }

  /** A price field of the form: the typed text when filled, zero when left empty. */
  function FormPrice(p: Option<string>): (r: Price)
    ensures Filled(p) <==> r.Parsed?
    ensures r.Parsed? ==> r.text == p.value
    ensures r.Literal? ==> r.amount == 0.0
  {
    if Filled(p) then Parsed(p.value) else Literal(0.0)
  }

  /** The alert `addModel` shows, checking provider, trimmed name, model id and trimmed key in
      that order; `None` when all are present. */
  function FormAlert(form: ModelForm): (r: Option<string>)
    ensures r.None? <==> form.provider != "" && Trim(form.modelName) != "" &&
                         form.modelId != "" && Trim(form.apiKey) != ""
    ensures r == Some(ProviderAlert) <==> form.provider == ""
    ensures r == Some(NameAlert) <==> form.provider != "" && Trim(form.modelName) == ""
    ensures r == Some(ModelIdAlert) <==>
              form.provider != "" && Trim(form.modelName) != "" && form.modelId == ""
    ensures r == Some(ApiKeyAlert) <==>
              form.provider != "" && Trim(form.modelName) != "" && form.modelId != "" && Trim(form.apiKey) == ""
  {
    if form.provider == "" then Some(ProviderAlert)
    else if Trim(form.modelName) == "" then Some(NameAlert)
    else if form.modelId == "" then Some(ModelIdAlert)
    else if Trim(form.apiKey) == "" then Some(ApiKeyAlert)
    else None
  }

  /** `addModel`: the alert when the form is incomplete (nothing is stored); otherwise the
      store with the new model appended under the generated id `id` at time `now`. */
  function AddModelFromForm(models: seq<Model>, form: ModelForm, id: Id, now: Timestamp): (r: Result<seq<Model>, string>)
    ensures r.Err? <==> FormAlert(form).Some?
    ensures r.Err? ==> r.error == FormAlert(form).value
    ensures r.Ok? ==> |r.value| == |models| + 1 && r.value[..|models|] == models
    ensures r.Ok? ==>
              var m := r.value[|models|];
              m.id == id && m.createdAt == now && m.provider == form.provider &&
              m.modelName == Trim(form.modelName) && m.modelId == form.modelId &&
              m.apiKey == Trim(form.apiKey) && m.legacyModelId == "" &&
              m.modelName != "" && m.apiKey != "" && IsTrimmed(m.modelName) && IsTrimmed(m.apiKey)
    ensures r.Ok? ==>
              var p := r.value[|models|].pricing;
              (p.Some? <==> Filled(form.inputPrice) || Filled(form.outputPrice)) &&
              (p.Some? ==> p.value.isCustom && p.value.currency == CustomCurrency && p.value.updatedAt == now &&
                           p.value.inputPrice == FormPrice(form.inputPrice) &&
                           p.value.outputPrice == FormPrice(form.outputPrice))
  {
    match FormAlert(form)
    case Some(alert) => Err(alert)
    case None =>
      var pricing :=
        if Filled(form.inputPrice) || Filled(form.outputPrice) then
          Some(Pricing(FormPrice(form.inputPrice), FormPrice(form.outputPrice), CustomCurrency, true, now))
        else None;
      var m := Model("", form.provider, Trim(form.modelName), form.modelId, Trim(form.apiKey), pricing, "", "");
      Ok(Storage.AddModel(models, m, id, now))
  }

  /** How a model added from the form is priced later: by the typed prices when either was
      filled, otherwise by the built-in table entry for its model id, if there is one. */
  lemma AddedModelPricing(models: seq<Model>, form: ModelForm, id: Id, now: Timestamp)
    requires AddModelFromForm(models, form, id, now).Ok?
    ensures var m := AddModelFromForm(models, form, id, now).value[|models|];
            (Filled(form.inputPrice) || Filled(form.outputPrice) ==>
               Storage.GetModelPricing(m) == Some(PricePair(FormPrice(form.inputPrice), FormPrice(form.outputPrice)))) &&
            (!Filled(form.inputPrice) && !Filled(form.outputPrice) ==>
               (Storage.GetModelPricing(m).Some? <==> form.modelId in Storage.BuiltinModelPrices))
  {
  }

  // ---------------------------------------------------------------------------------------
  // Deleting and selecting
  // ---------------------------------------------------------------------------------------

  /** `deleteModel(id)`: nothing changes unless the user confirms; then every model with that
      id goes and the others stay, in order. */
  function DeleteModelConfirmed(models: seq<Model>, id: Id, confirmed: bool): (r: seq<Model>)
    ensures !confirmed ==> r == models
    ensures Subseq(r, models)
    ensures confirmed ==> forall k | 0 <= k < |r| :: r[k].id != id
    ensures forall k | 0 <= k < |models| && models[k].id != id :: models[k] in r
    ensures confirmed ==> |r| == Count(models, (m: Model) => m.id != id)
  {
    if confirmed then
      FilterExt(models, Storage.OtherThan(Storage.ModelIdOf, id), (m: Model) => m.id != id);
      Storage.DeleteModel(models, id)
    else (SubseqRefl(models); models)
  }

  /** Deleting the id of the last model of a list where no other model has it drops just
      that model. */
  lemma {:induction false} DeleteAppended(models: seq<Model>, x: Model, id: Id)
    requires x.id == id && forall k | 0 <= k < |models| :: models[k].id != id
    ensures DeleteModelConfirmed(models + [x], id, true) == models
  {
    Storage.FilterAppendDropped(models, x, Storage.OtherThan(Storage.ModelIdOf, id));
    Storage.FilterAllKept(models, Storage.OtherThan(Storage.ModelIdOf, id));
  }

  /** Deleting a model just added (under a fresh id) restores the list. */
  lemma DeleteUndoesAdd(models: seq<Model>, form: ModelForm, id: Id, now: Timestamp)
    requires forall k | 0 <= k < |models| :: models[k].id != id
    requires AddModelFromForm(models, form, id, now).Ok?
    ensures DeleteModelConfirmed(AddModelFromForm(models, form, id, now).value, id, true) == models
  {
    var r := AddModelFromForm(models, form, id, now).value;
    var x := r[|models|];
    assert r == models + [x];
    DeleteAppended(models, x, id);
  }

  /** The predicate `getSelectedModels` filters with: the model's id is among the checked. */
  function IsChecked(checked: seq<Id>): Model -> bool {
    (m: Model) => m.id in checked
  }

  /** `getSelectedModels`: exactly the models whose checkbox is ticked, in list order. */
  function GetSelectedModels(models: seq<Model>, checked: seq<Id>): (r: seq<Model>)
    ensures Subseq(r, models)
    ensures forall k | 0 <= k < |r| :: r[k].id in checked
    ensures forall k | 0 <= k < |models| && models[k].id in checked :: models[k] in r
    ensures |r| == Count(models, (m: Model) => m.id in checked)
  {
    FilterIsSubseq(models, IsChecked(checked));
    Filter(models, IsChecked(checked))
  }

  /** Ticking every model selects the whole list; selecting again from a selection changes
      nothing. */
  lemma SelectionProperties(models: seq<Model>, checked: seq<Id>)
    ensures (forall k | 0 <= k < |models| :: models[k].id in checked) ==> GetSelectedModels(models, checked) == models
    ensures GetSelectedModels(GetSelectedModels(models, checked), checked) == GetSelectedModels(models, checked)
  {
    if forall k | 0 <= k < |models| :: models[k].id in checked {
      Storage.FilterAllKept(models, IsChecked(checked));
    }
    FilterIdempotent(models, IsChecked(checked));
  }

  /** A deleted model can no longer be selected. */
  lemma DeletedNotSelected(models: seq<Model>, id: Id, checked: seq<Id>)
    ensures forall k | 0 <= k < |GetSelectedModels(DeleteModelConfirmed(models, id, true), checked)| ::
              GetSelectedModels(DeleteModelConfirmed(models, id, true), checked)[k].id != id
  {
    var rest := DeleteModelConfirmed(models, id, true);
    var sel := GetSelectedModels(rest, checked);
    forall k | 0 <= k < |sel|
      ensures sel[k].id != id
    {
      assert sel[k] in rest;
    }
  }
}
