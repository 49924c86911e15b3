/** The state of the `Index` page component: the `useState` fields and the
    handlers that update them. The server's rows are the page's props, fixed
    for one mount; the derived view is the `ListView` functions of them. */
module IndexPage {
  import opened Records
  import opened Text
  import opened Validation
  import opened ListView
  import ResourceController

  /** `formData`. `kind` is absent (None) after `resetForm`, whose object
      has no `type` key; `description` is null when an edited row had none. */
  datatype Form = Form(name: string, kind: Option<string>, description: Option<string>)

  /** `{ name: '', description: '' }` */
  const EmptyForm: Form := Form("", None, Some(""))

  /** The form `handleEdit` fills in from a row. */
  function EditForm(r: Resource): Form
  {
    Form(r.name, Some(r.kind), r.description)
  }

  /** The request a handler hands to Inertia (`post`, `put`, `delete`). */
  datatype Request = Post(body: Form) | Put(id: nat, body: Form) | Delete(id: nat)

  /** The JSON body of a form as the server reads it: no upload, an absent
      `type` key is missing, a null description is null. */
  function Body(form: Form): (sub: Submission)
    ensures OptionalText(sub.description) && OptionalPicture(sub.image)
    ensures RequiredText(sub.name) <==> !Blank(form.name) && |form.name| <= MaxTextLength
    ensures RequiredText(sub.kind) <==> form.kind.Some? && !Blank(form.kind.value) && |form.kind.value| <= MaxTextLength
  {
    Submission(
      Str(form.name),
      if form.kind.Some? then Str(form.kind.value) else Missing,
      if form.description.Some? then Str(form.description.value) else Null,
      Missing)
  }

  /** The server accepts a form the page sends exactly when its name and
      type are non-blank and at most 255 characters: the description and the
      image never fail validation, and a form without a `type` key always does. */
  lemma FormValidates(form: Form)
    ensures Errors(StoreRules, Body(form)) == {} <==>
      !Blank(form.name) && |form.name| <= MaxTextLength
      && form.kind.Some? && !Blank(form.kind.value) && |form.kind.value| <= MaxTextLength
  {
    StoreRulesAccept(Body(form));
  }

  /** Opening a stored record for editing and saving it unchanged passes
      validation and rewrites the record as it was. */
  lemma EditThenSaveKeepsRecord(id: nat, rec: ResourceController.Record)
    requires ResourceController.WellFormed(rec)
    ensures var sub := Body(EditForm(ResourceController.RowOf(id, rec)));
      Errors(UpdateRules, sub) == {}
      && ResourceController.Updated(rec, sub, rec.images) == rec
  {
    var sub := Body(EditForm(ResourceController.RowOf(id, rec)));
    UpdateRulesAreStoreRules();
    StoreRulesAccept(sub);
  }

  class Page {
    const resources: seq<Resource>
    var formData: Form
    var isModalVisible: bool
    var isEditMode: bool
    var currentResourceId: Option<nat>
    var selectedResource: Option<Resource>
    var searchQuery: string
    var currentPage: int

    /** The page number is never negative, and an id is being edited exactly
        in edit mode. */
    ghost predicate Valid()
      reads this
    {
      currentPage >= 0 && (isEditMode <==> currentResourceId.Some?)
    }

    /** The initial `useState` values. */
    constructor (rows: seq<Resource>)
      ensures Valid()
      ensures resources == rows && formData == EmptyForm
      ensures !isModalVisible && !isEditMode && currentResourceId == None
      ensures selectedResource == None && searchQuery == "" && currentPage == 1
    {
      resources := rows;
      formData := EmptyForm;
      isModalVisible, isEditMode := false, false;
      currentResourceId, selectedResource := None, None;
      searchQuery, currentPage := "", 1;
    }

    /** `filteredResources`. */
    function FilteredResources(): (rows: seq<Resource>)
      reads this
      requires Renderable(resources, searchQuery)
      ensures |rows| <= |resources|
      ensures forall i :: 0 <= i < |rows| ==>
        rows[i] in resources && Evaluates(rows[i], searchQuery) && Matches(rows[i], searchQuery)
    {
      Filter(resources, searchQuery)
    }

    /** `totalPages`. */
    function TotalPages(): (pages: nat)
      reads this
      requires Renderable(resources, searchQuery)
      ensures |FilteredResources()| <= pages * ItemsPerPage
      ensures pages == 0 <==> FilteredResources() == []
    {
      ListView.TotalPages(|FilteredResources()|)
    }

    /** `displayedResources`: the rows of the current page. */
    function DisplayedResources(): (shown: seq<Resource>)
      reads this
      requires Renderable(resources, searchQuery)
      ensures |shown| <= ItemsPerPage
      ensures forall i :: 0 <= i < |shown| ==> shown[i] in FilteredResources()
    {
      Displayed(FilteredResources(), currentPage)
    }

    /** `resetForm`: the empty form, the modal hidden, create mode, no id. */
    method ResetForm()
      requires Valid()
      modifies this
      ensures Valid()
      ensures formData == EmptyForm && !isModalVisible && !isEditMode && currentResourceId == None
      ensures selectedResource == old(selectedResource)
      ensures searchQuery == old(searchQuery) && currentPage == old(currentPage)
    {
      formData := EmptyForm;
      isModalVisible := false;
      isEditMode := false;
      currentResourceId := None;
    }

    /** `handleEdit(resource)`: the form takes the row's name, type and
        description; the row's id is remembered; edit mode, modal shown. */
    method HandleEdit(r: Resource)
      requires Valid()
      modifies this
      ensures Valid()
      ensures formData == EditForm(r) && currentResourceId == Some(r.id)
      ensures isEditMode && isModalVisible
      ensures selectedResource == old(selectedResource)
      ensures searchQuery == old(searchQuery) && currentPage == old(currentPage)
    {
      formData := EditForm(r);
      currentResourceId := Some(r.id);
      isEditMode := true;
      isModalVisible := true;
    }

    /** `handleOverlayClick(e)`: a click on the overlay itself (not bubbled
        up from the modal's content) hides the modal; nothing else changes. */
    method HandleOverlayClick(targetIsOverlay: bool)
      requires Valid()
      modifies this
      ensures Valid()
      ensures isModalVisible == (old(isModalVisible) && !targetIsOverlay)
      ensures formData == old(formData) && isEditMode == old(isEditMode)
      ensures currentResourceId == old(currentResourceId)
      ensures selectedResource == old(selectedResource)
      ensures searchQuery == old(searchQuery) && currentPage == old(currentPage)
    {
      if targetIsOverlay {
        isModalVisible := false;
      }
    }

    /** The "Add New Data" button as written: `setModalVisible(true)` and
        nothing else, so a form and edit mode left by a dismissed edit stay. */
    method OpenModal()
      requires Valid()
      modifies this
      ensures Valid()
      ensures isModalVisible
      ensures formData == old(formData) && isEditMode == old(isEditMode)
      ensures currentResourceId == old(currentResourceId)
      ensures selectedResource == old(selectedResource)
      ensures searchQuery == old(searchQuery) && currentPage == old(currentPage)
    {
      isModalVisible := true;
    }

    /** "Add New Data" as intended: the create form, empty, in create mode. */
    method OpenCreate()
      requires Valid()
      modifies this
      ensures Valid()
      ensures isModalVisible && !isEditMode && currentResourceId == None && formData == EmptyForm
      ensures selectedResource == old(selectedResource)
      ensures searchQuery == old(searchQuery) && currentPage == old(currentPage)
    {
      ResetForm();
      isModalVisible := true;
    }

    /** The form's `onSubmit`: `handleUpdate` in edit mode, `handleCreate`
        otherwise. Each hands the form to Inertia, then resets it. */
    method Submit() returns (req: Request)
      requires Valid()
      modifies this
      ensures Valid()
      ensures req == if old(isEditMode) then Put(old(currentResourceId).value, old(formData)) else Post(old(formData))
      ensures formData == EmptyForm && !isModalVisible && !isEditMode && currentResourceId == None
      ensures selectedResource == old(selectedResource)
      ensures searchQuery == old(searchQuery) && currentPage == old(currentPage)
    {
      if isEditMode {
        req := HandleUpdate();
      } else {
        req := HandleCreate();
      }
    }

    /** `handleCreate`: post the form, then `resetForm`. */
    method HandleCreate() returns (req: Request)
      requires Valid()
      modifies this
      ensures Valid()
      ensures req == Post(old(formData))
      ensures formData == EmptyForm && !isModalVisible && !isEditMode && currentResourceId == None
      ensures selectedResource == old(selectedResource)
      ensures searchQuery == old(searchQuery) && currentPage == old(currentPage)
    {
      req := Post(formData);
      ResetForm();
    }

    /** `handleUpdate`: put the form to the edited id, then `resetForm`. */
    method HandleUpdate() returns (req: Request)
      requires Valid() && isEditMode
      modifies this
      ensures Valid()
      ensures req == Put(old(currentResourceId).value, old(formData))
      ensures formData == EmptyForm && !isModalVisible && !isEditMode && currentResourceId == None
      ensures selectedResource == old(selectedResource)
      ensures searchQuery == old(searchQuery) && currentPage == old(currentPage)
    {
      req := Put(currentResourceId.value, formData);
      ResetForm();
    }

    /** `handleDelete(id)`: a delete request, no state change. */
    method HandleDelete(id: nat) returns (req: Request)
      ensures req.Delete? && req.id == id
    {
      req := Delete(id);
    }

    /** `handleRowClick(resource)`: open the detail panel on that row. */
    method HandleRowClick(r: Resource)
      requires Valid()
      modifies this`selectedResource
      ensures Valid()
      ensures selectedResource == Some(r)
    {
      selectedResource := Some(r);
    }

    /** `closeFullDescriptionModal`: close the detail panel. */
    method CloseFullDescriptionModal()
      requires Valid()
      modifies this`selectedResource
      ensures Valid()
      ensures selectedResource == None
    {
      selectedResource := None;
    }

    /** The search box's `onChange`: the query changes and the page number
        is kept as it is, not clamped to the new page count. */
    method SetSearchQuery(query: string)
      requires Valid()
      modifies this`searchQuery
      ensures Valid()
      ensures searchQuery == query
    {
      searchQuery := query;
    }

    /** `nextPage`: the Next updater applied with this render's page count.
        The filtered rows stay the same. */
    method NextPage()
      requires Valid() && Renderable(resources, searchQuery)
      modifies this`currentPage
      ensures Valid()
      ensures currentPage == ListView.NextPage(old(currentPage), TotalPages())
      ensures FilteredResources() == old(FilteredResources())
    {
      currentPage := ListView.NextPage(currentPage, TotalPages());
    }

    /** `prevPage`: the Previous updater. The filtered rows stay the same. */
    method PrevPage()
      requires Valid() && Renderable(resources, searchQuery)
      modifies this`currentPage
      ensures Valid()
      ensures currentPage == ListView.PrevPage(old(currentPage))
      ensures FilteredResources() == old(FilteredResources())
    {
      currentPage := ListView.PrevPage(currentPage);
    }
  }

  /** Edit a row, dismiss the modal on its overlay, press "Add New Data"
      and save: the page puts the old row's form to the old row's id. The
      user types nothing, and the browser's `required` checks on the inputs
      are not part of the model. */
  method AddAfterDismissedEdit(rows: seq<Resource>, r: Resource) returns (req: Request)
    ensures req == Put(r.id, EditForm(r))
  {
    var page := new Page(rows);
    page.HandleEdit(r);
    page.HandleOverlayClick(true);
    page.OpenModal();
    req := page.Submit();
  }

  /** The same steps with "Add New Data" opening the create form post an
      empty form instead. The user types nothing before saving; in the
      browser the inputs' `required` checks would stop this empty form, and
      those checks are not part of the model. */
  method AddAfterDismissedEditCorrected(rows: seq<Resource>, r: Resource) returns (req: Request)
    ensures req == Post(EmptyForm)
  {
    var page := new Page(rows);
    page.HandleEdit(r);
    page.HandleOverlayClick(true);
    page.OpenCreate();
    req := page.Submit();
  }
}
