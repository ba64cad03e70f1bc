/** The application shell: the single owner of the loaded news items, the
    loading flag and the active tab. Each handler receives the store's reply
    as a parameter and reconciles the list from it. */
module App {
  import opened Records
  import opened NewsList
  import Dashboard
  import DailyOps

  datatype Tab = DashboardTab | DailyTab | ArchiveTab

  /** What the main area shows. */
  datatype View =
    | LoadingPlaceholder
    | DashboardView(screen: Dashboard.Screen)
    | DailyView(items: seq<NewsItem>, theme: string)
    | ArchiveView(items: seq<NewsItem>)

  /** The fixed four-month content calendar. */
  const MockRoadmap: seq<MonthPlan> := [
    MonthPlan("April", "Songkran & Soft Power", ["Elephant Pants Viral", "Water Festival Safety"]),
    MonthPlan("May", "Back to School", ["School Uniform Pricing", "Stationery Support"]),
    MonthPlan("June", "Fruit Season", ["Durian Export", "Mangosteen Festival"]),
    MonthPlan("July", "King's Birthday", ["Royal Projects", "Community Service"])
  ]

  const CurrentMonthTheme: string := "Back to School"

  class AppController {
    var activeTab: Tab
    var newsItems: seq<NewsItem>
    var loading: bool

    constructor()
      ensures activeTab == DashboardTab && newsItems == [] && loading
    {
      activeTab := DashboardTab;
      newsItems := [];
      loading := true;
    }

    /** `fetchData`: a successful load replaces the list wholesale (null
        reads as empty); a failed one leaves it; loading ends either way. */
    method FetchData(result: LoadResult)
      modifies this
      ensures !loading && activeTab == old(activeTab)
      ensures result.LoadError? ==> newsItems == old(newsItems)
      ensures result.LoadOk? ==> newsItems == (if result.data.Some? then result.data.value else [])
    {
      loading := true;
      match result {
        case LoadError =>
        case LoadOk(data) =>
          newsItems := if data.Some? then data.value else [];
      }
      loading := false;
    }

    /** `handleAddNews`: sends the new item with a fresh id; on an echoed row
        prepends it, otherwise alerts and keeps the list. */
    method AddNews(newItem: NewItem, freshId: string, result: InsertResult) returns (sent: NewsItem, alert: bool)
      modifies this
      ensures sent.id == freshId && WithoutId(sent) == newItem
      ensures alert <==> !InsertSucceeded(result)
      ensures newsItems == AfterInsert(old(newsItems), result)
      ensures !alert ==> |newsItems| == |old(newsItems)| + 1 && newsItems[1..] == old(newsItems)
      ensures loading == old(loading) && activeTab == old(activeTab)
    {
      sent := WithId(newItem, freshId);
      alert := !InsertSucceeded(result);
      newsItems := AfterInsert(newsItems, result);
    }

    /** `handleUpdateNews`: sends six columns of the item by id; on success
        replaces every item with that id, otherwise alerts. */
    method UpdateNews(updated: NewsItem, result: WriteResult) returns (patch: UpdatePatch, alert: bool)
      modifies this
      ensures patch == PatchOf(updated)
      ensures alert <==> result == WriteError
      ensures alert ==> newsItems == old(newsItems)
      ensures !alert ==> newsItems == ReplaceById(old(newsItems), updated)
      ensures loading == old(loading) && activeTab == old(activeTab)
    {
      patch := PatchOf(updated);
      alert := result == WriteError;
      if !alert {
        newsItems := ReplaceById(newsItems, updated);
      }
    }

    /** `handleDeleteNews`: deletes by id; on success filters the id out,
        otherwise alerts. */
    method DeleteNews(id: string, result: WriteResult) returns (alert: bool)
      modifies this
      ensures alert <==> result == WriteError
      ensures alert ==> newsItems == old(newsItems)
      ensures !alert ==> newsItems == RemoveById(old(newsItems), id) && !HasId(newsItems, id)
      ensures loading == old(loading) && activeTab == old(activeTab)
    {
      alert := result == WriteError;
      if !alert {
        newsItems := RemoveById(newsItems, id);
      }
    }

    /** The sidebar buttons. */
    method SelectTab(tab: Tab)
      modifies this
      ensures activeTab == tab && newsItems == old(newsItems) && loading == old(loading)
    {
      activeTab := tab;
    }

    /** A submission of the daily-operations form, routed through the
        `onAddNews` or `onUpdateNews` callback; the form's modal closes once
        the handler has run, whatever its outcome. */
    method SubmitForm(form: DailyOps.DailyOpsForm, timestamp: string, freshId: string,
                      insert: InsertResult, write: WriteResult)
      returns (request: Option<DailyOps.Request>, sent: Option<NewsItem>, patch: Option<UpdatePatch>, alert: bool)
      requires form.isModalOpen
      modifies this, form
      ensures old(form.formData).summary == "" ==> request == None && newsItems == old(newsItems)
      ensures old(form.formData).summary != "" ==>
                request == Some(DailyOps.RequestFor(old(form.editingItem), old(form.formData), timestamp))
      ensures form.isModalOpen <==> old(form.formData).summary == ""
      ensures sent.Some? <==> request.Some? && request.value.AddRequest?
      ensures sent.Some? ==> sent.value.id == freshId && WithoutId(sent.value) == request.value.newItem
      ensures patch.Some? <==> request.Some? && request.value.UpdateRequest?
      ensures patch.Some? ==> patch.value == PatchOf(request.value.item)
      ensures alert <==> (sent.Some? && !InsertSucceeded(insert)) || (patch.Some? && write == WriteError)
      ensures request.Some? && request.value.AddRequest? ==>
                newsItems == AfterInsert(old(newsItems), insert)
      ensures request.Some? && request.value.UpdateRequest? ==>
                newsItems == (if write == WriteOk then ReplaceById(old(newsItems), request.value.item)
                              else old(newsItems))
      ensures form.editingItem == old(form.editingItem) && form.formData == old(form.formData)
      ensures loading == old(loading) && activeTab == old(activeTab)
    {
      request := form.Submit(timestamp);
      sent, patch, alert := None, None, false;
      match request {
        case None =>
        case Some(r) =>
          match r {
            case AddRequest(n) =>
              var row;
              row, alert := AddNews(n, freshId, insert);
              sent := Some(row);
            case UpdateRequest(u) =>
              var p;
              p, alert := UpdateNews(u, write);
              patch := Some(p);
          }
      }
    }

    /** A delete from the daily-operations list, gated on confirmation. */
    method ConfirmDelete(id: string, confirmed: bool, write: WriteResult) returns (alert: bool)
      modifies this
      ensures !confirmed ==> !alert && newsItems == old(newsItems)
      ensures confirmed ==> (alert <==> write == WriteError)
      ensures confirmed && write == WriteOk ==> newsItems == RemoveById(old(newsItems), id)
      ensures confirmed && write == WriteError ==> newsItems == old(newsItems)
      ensures loading == old(loading) && activeTab == old(activeTab)
    {
      alert := false;
      match DailyOps.DeleteRequest(id, confirmed) {
        case None =>
        case Some(target) =>
          alert := DeleteNews(target, write);
      }
    }

    /** `renderContent`: a placeholder while loading, otherwise the view of
        the active tab. */
    function RenderContent(): (v: View)
      reads this
      ensures loading <==> v.LoadingPlaceholder?
      ensures v.DashboardView? ==> activeTab == DashboardTab && v.screen.Overview?
      ensures v.DashboardView? ==>
                v.screen.publishedCount == PublishedCount(newsItems) <= |newsItems| && v.screen.bars == []
      ensures v.DailyView? ==> activeTab == DailyTab && v.items == newsItems
      ensures v.ArchiveView? ==> activeTab == ArchiveTab && v.items == newsItems
      ensures !loading ==> (activeTab == DashboardTab <==> v.DashboardView?)
    {
      if loading then LoadingPlaceholder
      else
        match activeTab
        case DashboardTab => DashboardView(Dashboard.Render([], MockRoadmap, PublishedCount(newsItems)))
        case DailyTab => DailyView(newsItems, CurrentMonthTheme)
        case ArchiveTab => ArchiveView(newsItems)
    }
  }

  /** After an edit submitted from the form succeeds, the stored row (which
      receives only the six sent columns) equals the item the shell keeps. */
  lemma EditedItemMatchesStore(item: NewsItem, form: DailyOps.FormData)
    ensures ApplyPatch(item, PatchOf(DailyOps.EditPayload(item, form))) == DailyOps.EditPayload(item, form)
  {
    PatchTouchesOnlySentColumns(item, DailyOps.EditPayload(item, form));
  }

  /** An add submitted from the form whose row the store echoes back becomes
      the first item, carrying the draft and the fresh id. */
  lemma SubmittedAddBecomesHead(prev: seq<NewsItem>, form: DailyOps.FormData, timestamp: string, freshId: string)
    ensures var sent := WithId(DailyOps.AddPayload(form, timestamp), freshId);
            var r := AfterInsert(prev, InsertOk(Some([sent])));
            |r| == |prev| + 1 && r[0].id == freshId && DailyOps.DraftOf(r[0]) == form && r[1..] == prev
  {
  }
}
