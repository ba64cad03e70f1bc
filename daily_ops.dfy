/** The daily-operations view: a modal form whose draft is seeded for adding
    or for editing, and whose submission becomes either an insert or an
    update request for the application shell. */
module DailyOps {
  import opened Records

  /** The draft fields held by the form. */
  datatype FormData = FormData(
    summary: string,
    category: string,
    contentType: string,
    status: string,
    date: string)

  /** What a submission asks the shell to do. */
  datatype Request = UpdateRequest(item: NewsItem) | AddRequest(newItem: NewItem)

  /** The draft for a new item: empty summary, the first option of each
      select, and the given day. */
  function DefaultForm(today: string): FormData {
    FormData("", "Economic", "Video", "Draft", today)
  }

  /** The draft seeded from an item being edited. */
  function DraftOf(item: NewsItem): FormData {
    FormData(item.summary, item.category, item.contentType, item.status, item.date)
  }

  /** `{ ...editingItem, ...formData }`: the item overlaid with the draft. */
  function EditPayload(item: NewsItem, form: FormData): (r: NewsItem)
    ensures r.id == item.id && r.originalText == item.originalText
    ensures r.isHighlight == item.isHighlight && r.timestamp == item.timestamp
    ensures DraftOf(r) == form
  {
    item.(summary := form.summary, category := form.category, contentType := form.contentType,
          status := form.status, date := form.date)
  }

  /** The draft plus `originalText = summary`, `isHighlight = false` and the
      submission timestamp. */
  function AddPayload(form: FormData, timestamp: string): (r: NewItem)
    ensures r.originalText == form.summary && !r.isHighlight && r.timestamp == timestamp
    ensures DraftOf(WithId(r, "")) == form
  {
    NewItem(form.summary, form.date, form.category, form.contentType, form.status,
            false, form.summary, timestamp)
  }

  /** Exactly one of update and add, chosen by whether an item is being edited. */
  function RequestFor(editing: Option<NewsItem>, form: FormData, timestamp: string): (r: Request)
    ensures r.UpdateRequest? <==> editing.Some?
    ensures r.UpdateRequest? ==> r.item == EditPayload(editing.value, form)
    ensures r.UpdateRequest? ==> r.item.id == editing.value.id && DraftOf(r.item) == form
    ensures r.AddRequest? ==> r.newItem == AddPayload(form, timestamp)
  {
    match editing
    case Some(item) => UpdateRequest(EditPayload(item, form))
    case None => AddRequest(AddPayload(form, timestamp))
  }

  /** Submitting an unchanged edit sends the item itself, and the draft of an
      edited item reads back as the draft that was submitted. */
  lemma EditRoundTrip(item: NewsItem, form: FormData)
    ensures EditPayload(item, DraftOf(item)) == item
    ensures EditPayload(EditPayload(item, form), DraftOf(item)) == item
  {
  }

  /** `handleDelete`: the id is handed on exactly when the user confirms. */
  function DeleteRequest(id: string, confirmed: bool): (r: Option<string>)
    ensures r.Some? <==> confirmed
    ensures r.Some? ==> r.value == id
  {
    if confirmed then Some(id) else None
  }

  /** The form state of the view. */
  class DailyOpsForm {
    var isModalOpen: bool
    var editingItem: Option<NewsItem>
    var formData: FormData

    constructor(today: string)
      ensures !isModalOpen && editingItem == None && formData == DefaultForm(today)
    {
      isModalOpen := false;
      editingItem := None;
      formData := DefaultForm(today);
    }

    /** `handleOpenAdd`. */
    method OpenAdd(today: string)
      modifies this
      ensures isModalOpen && editingItem == None
      ensures formData == DefaultForm(today) && formData.summary == ""
    {
      editingItem := None;
      formData := DefaultForm(today);
      isModalOpen := true;
    }

    /** `handleOpenEdit`. */
    method OpenEdit(item: NewsItem)
      modifies this
      ensures isModalOpen && editingItem == Some(item)
      ensures formData == DraftOf(item) && EditPayload(item, formData) == item
    {
      editingItem := Some(item);
      formData := DraftOf(item);
      isModalOpen := true;
      EditRoundTrip(item, formData);
    }

    /** `handleSubmit`. The summary textarea is `required`, so the browser
        does not submit an empty summary; otherwise the request is built
        from the item being edited and the draft, and the modal closes. */
    method Submit(timestamp: string) returns (request: Option<Request>)
      requires isModalOpen
      modifies this
      ensures old(formData).summary == "" ==> request == None && isModalOpen
      ensures old(formData).summary != "" ==>
                request == Some(RequestFor(old(editingItem), old(formData), timestamp)) && !isModalOpen
      ensures editingItem == old(editingItem) && formData == old(formData)
    {
      if formData.summary == "" {
        request := None;
      } else {
        request := Some(RequestFor(editingItem, formData, timestamp));
        isModalOpen := false;
      }
    }

    /** The close button of the modal. */
    method Close()
      modifies this
      ensures !isModalOpen && editingItem == old(editingItem) && formData == old(formData)
    {
      isModalOpen := false;
    }

    /** The summary textarea. */
    method SetSummary(value: string)
      modifies this
      ensures formData == old(formData).(summary := value)
      ensures isModalOpen == old(isModalOpen) && editingItem == old(editingItem)
    {
      formData := formData.(summary := value);
    }

    /** The category select. */
    method SetCategory(value: string)
      modifies this
      ensures formData == old(formData).(category := value)
      ensures isModalOpen == old(isModalOpen) && editingItem == old(editingItem)
    {
      formData := formData.(category := value);
    }

    /** The status select. */
    method SetStatus(value: string)
      modifies this
      ensures formData == old(formData).(status := value)
      ensures isModalOpen == old(isModalOpen) && editingItem == old(editingItem)
    {
      formData := formData.(status := value);
    }
  }
}
