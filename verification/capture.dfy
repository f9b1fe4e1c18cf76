/**
 * Capturing a url (the home page's save action): `handle` extracts the
 * metadata, then the result is handed both to `saveEmbed` and to the webhook.
 * The object `handle` returns has no `id`; it has `title`, `description` and
 * `imageUrl` properties (possibly holding undefined) exactly when extraction
 * ran, so a failed extraction of a url already stored keeps the stored
 * metadata and only refreshes the date.
 */
module Capture {
  import opened Wrappers
  import opened EmbedStore
  import Extract
  import Webhook

  /** The object `handle` returns, as the draft `saveEmbed` receives. */
  function ToDraft(x: Extract.Extracted): (d: Draft)
    ensures d.id.Omitted? && d.url == x.url && d.date == Given(Some(x.date))
    ensures x.fields.None? <==> d.title.Omitted?
    ensures x.fields.None? <==> d.description.Omitted?
    ensures x.fields.None? <==> d.imageUrl.Omitted?
  {
    match x.fields
    case None => Draft(Omitted, x.url, Omitted, Given(Some(x.date)), Omitted, Omitted)
    case Some(f) => Draft(Omitted, x.url, Given(f.title), Given(Some(x.date)), Given(f.description), Given(f.imageUrl))
  }

  /**
   * A capture of a url not yet stored adds a record under the generator's
   * next key holding exactly what was extracted: the url, the date, and the
   * three fields (all undefined when extraction failed).
   */
  lemma CaptureNew(s: Store, x: Extract.Extracted)
    requires Valid(s)
    requires forall k | k in s.records :: s.records[k].url != x.url
    requires s.nextKey <= MaxGeneratedKey
    ensures Save(s, ToDraft(x)).Done?
    ensures var k := Save(s, ToDraft(x)).value;
            var e := Save(s, ToDraft(x)).after.records[k];
            && k == s.nextKey
            && e.url == x.url && e.date == Some(x.date)
            && (x.fields.Some? ==> e.title == x.fields.value.title && e.description == x.fields.value.description
                                   && e.imageUrl == x.fields.value.imageUrl)
            && (x.fields.None? ==> e.title.None? && e.description.None? && e.imageUrl.None?)
  {
    SaveAddsNew(s, ToDraft(x));
  }

  /**
   * Capturing a url that is already stored when extraction fails updates the
   * stored record's date and keeps its title, description and image.
   */
  lemma FailedCaptureKeepsMetadata(s: Store, x: Extract.Extracted, k: int)
    requires Valid(s)
    requires x.fields.None?
    requires k in s.records && s.records[k].url == x.url
    ensures Save(s, ToDraft(x)).Done?
    ensures Save(s, ToDraft(x)).value == k
    ensures var e := s.records[k];
            Save(s, ToDraft(x)).after.records == s.records[k := e.(date := Some(x.date))]
  {
    SaveMergesExisting(s, ToDraft(x), k);
  }

  /**
   * Capturing a url that is already stored when extraction succeeds replaces
   * the stored title, description and image with the extracted ones, even
   * where those are undefined, and updates the date.
   */
  lemma CaptureOverwritesMetadata(s: Store, x: Extract.Extracted, k: int)
    requires Valid(s)
    requires x.fields.Some?
    requires k in s.records && s.records[k].url == x.url
    ensures Save(s, ToDraft(x)).Done?
    ensures Save(s, ToDraft(x)).value == k
    ensures var f := x.fields.value;
            Save(s, ToDraft(x)).after.records
              == s.records[k := Embed(k, x.url, f.title, Some(x.date), f.description, f.imageUrl)]
  {
    SaveMergesExisting(s, ToDraft(x), k);
  }

  /** What the save action leaves behind. */
  datatype Outcome = Outcome(
    store: Store,                                       // the store afterwards
    request: Option<Webhook.Request<Extract.Extracted>>, // the webhook request issued, if any
    message: string,                                    // the alert shown
    field: string,                                      // the url input afterwards
    toList: bool)                                       // whether the list page is shown next

  /**
   * `handleSaveUrl` once `handle` has produced `x` for the url in the input
   * field: the save and the webhook call start together, so the webhook
   * request goes out whether or not the save succeeds; a successful save
   * clears the field and moves to the list, a failed one (including a store
   * that is not open) only reports the error. While a save is under way the
   * action does nothing.
   */
  function SaveUrl(loading: bool, open: bool, s: Store, settings: Webhook.Settings,
                   field: string, x: Extract.Extracted): (r: Option<Outcome>)
    ensures r.None? <==> loading
    ensures r.Some? ==> r.value.request == Webhook.Plan(settings, x)
    ensures r.Some? && r.value.toList ==> open && Save(s, ToDraft(x)).Done? && r.value.store == Save(s, ToDraft(x)).after
                                          && r.value.field == ""
    ensures r.Some? && !r.value.toList ==> r.value.store == s && r.value.field == field
    ensures !loading && open && Save(s, ToDraft(x)).Done? ==>
              r.Some? && r.value.toList && r.value.message == "URL salva com sucesso!"
    ensures !loading && (!open || Save(s, ToDraft(x)).Failed?) ==>
              r.Some? && !r.value.toList && r.value.message == "Erro ao salvar URL"
  {
    if loading then None
    else
      var request := Webhook.Plan(settings, x);
      if !open then Some(Outcome(s, request, "Erro ao salvar URL", field, false))
      else
        match Save(s, ToDraft(x))
        case Done(_, after) => Some(Outcome(after, request, "URL salva com sucesso!", "", true))
        case Failed(_) => Some(Outcome(s, request, "Erro ao salvar URL", field, false))
  }

  /**
   * With an open store that is valid, capturing a url not yet stored always
   * succeeds (while keys remain), and the webhook receives the same data that
   * was stored.
   */
  lemma SaveUrlStoresWhatIsSent(s: Store, settings: Webhook.Settings, field: string, x: Extract.Extracted)
    requires Valid(s)
    requires forall k | k in s.records :: s.records[k].url != x.url
    requires s.nextKey <= MaxGeneratedKey
    ensures var r := SaveUrl(false, true, s, settings, field, x);
            && r.Some? && r.value.toList && r.value.message == "URL salva com sucesso!"
            && Valid(r.value.store)
            && (r.value.request.Some? ==> r.value.request.value.body.url in (set k | k in r.value.store.records :: r.value.store.records[k].url))
  {
    CaptureNew(s, x);
    SavePreservesValid(s, ToDraft(x));
    var t := Save(s, ToDraft(x));
    assert t.after.records[t.value].url == x.url;
  }
}
