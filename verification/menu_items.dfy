/** The menu administration page: the category filter, the outcome of a delete as the page
    reports it, the reset after a save, and the category labels. */
module MenuItems {
  import opened Common
  import opened Types
  import opened OrderStore

  /** The category test of the filter. */
  function InCategory(selectedCategory: string): MenuItem -> bool {
    (item: MenuItem) => item.category == selectedCategory
  }

  /** `selectedCategory === 'all' ? menuItems : menuItems.filter(...)` */
  function FilteredItems(menu: seq<MenuItem>, selectedCategory: string): (r: seq<MenuItem>)
    ensures selectedCategory == "all" ==> r == menu
    ensures selectedCategory != "all" ==> r == Filter(menu, InCategory(selectedCategory))
    ensures selectedCategory != "all" ==>
      && IsSubsequence(r, menu)
      && (forall k :: 0 <= k < |menu| ==> (menu[k] in r <==> menu[k].category == selectedCategory))
      && (forall k :: 0 <= k < |r| ==> r[k].category == selectedCategory)
  {
    if selectedCategory == "all" then menu
    else
      var r := Filter(menu, InCategory(selectedCategory));
      assert forall k :: 0 <= k < |r| ==> r[k].category == selectedCategory;
      r
  }

  /** What axios hands the page: a response with its status and the body's `error` text, or
      no response at all. */
  datatype HttpResult = Answered(status: int, errorText: Option<string>) | NoResponse

  /** axios resolves for 2xx and rejects everything else. */
  predicate Resolves(r: HttpResult) {
    r.Answered? && 200 <= r.status < 300
  }

  datatype Message = NoMessage | SuccessMessage(text: string) | ErrorMessage(text: string)

  datatype DeleteOutcome = DeleteOutcome(message: Message, refetch: bool)

  const DeletedText := "Item excluído com sucesso!"
  const NotFoundText := "Item não encontrado. Pode ter sido excluído."
  const DeleteFailedText := "Erro ao excluir o item. Por favor, tente novamente."

  /** `setError(error.response.data.error)`: an absent text shows nothing. */
  function ServerText(text: Option<string>): Message {
    match text
    case Some(t) => ErrorMessage(t)
    case None => NoMessage
  }

  /** `handleDelete` after the confirmation. */
  function ClassifyDelete(r: HttpResult): (out: DeleteOutcome)
    ensures out.message.SuccessMessage? <==> r.Answered? && r.status == 200
    ensures out.refetch <==> r.Answered? && (r.status == 200 || r.status == 404)
    ensures Resolves(r) && r.status != 200 ==> out == DeleteOutcome(NoMessage, false)
    ensures !Resolves(r) ==> !out.message.SuccessMessage?
  {
    if Resolves(r) then
      if r.status == 200 then DeleteOutcome(SuccessMessage(DeletedText), true)
      else DeleteOutcome(NoMessage, false)
    else if r.Answered? && (r.status == 409 || r.status == 400) then DeleteOutcome(ServerText(r.errorText), false)
    else if r.Answered? && r.status == 404 then DeleteOutcome(ErrorMessage(NotFoundText), true)
    else DeleteOutcome(ErrorMessage(DeleteFailedText), false)
  }

  /** The delete handler with success on any 2xx status, as the server's 204 requires. */
  function ClassifyDeleteFixed(r: HttpResult): (out: DeleteOutcome)
    ensures out.message.SuccessMessage? <==> Resolves(r)
    ensures !Resolves(r) ==> out == ClassifyDelete(r)
  {
    if Resolves(r) then DeleteOutcome(SuccessMessage(DeletedText), true)
    else ClassifyDelete(r)
  }

  /** The HTTP answer of DELETE /api/menu-items/:id: 204 with no body, 404 with
      'Menu item not found', and 500 otherwise. The JSON error handler is registered before
      the routes, so `next(error)` never reaches it and Express's default handler answers
      the 500 without an `error` field. */
  function DeleteAnswer(reply: Reply): HttpResult {
    if reply.code == NoContent then Answered(NoContent, None)
    else if reply.code == NotFound then Answered(NotFound, Some("Menu item not found"))
    else Answered(reply.code, None)
  }

  /** The form's draft, with the price as typed. */
  datatype ItemFormData = ItemFormData(name: string, description: string, price: string, category: string, isAvailable: bool)

  const BlankItem := ItemFormData("", "", "", "", true)

  datatype Page = Page(
    newItem: ItemFormData,
    editing: Option<MenuItem>,
    formVisible: bool,
    success: Option<string>,
    error: Option<string>)

  const UpdatedText := "Item atualizado com sucesso!"
  const AddedText := "Item adicionado com sucesso!"
  const SaveFailedText := "Erro ao salvar o item. Por favor, tente novamente."

  /** `handleSubmit` after its request: a 200 or 201 resets the form, any other 2xx leaves the
      page alone, and a rejection shows the save error. */
  function AfterSave(p: Page, r: HttpResult): (q: Page)
    ensures Resolves(r) && (r.status == 200 || r.status == 201) ==>
      && q.newItem == BlankItem
      && q.editing.None?
      && !q.formVisible
      && q.success == Some(if p.editing.Some? then UpdatedText else AddedText)
      && q.error == p.error
    ensures Resolves(r) && r.status != 200 && r.status != 201 ==> q == p
    ensures !Resolves(r) ==> q == p.(error := Some(SaveFailedText))
  {
    if Resolves(r) then
      if r.status == 200 || r.status == 201 then
        p.(newItem := BlankItem, editing := None, formVisible := false,
           success := Some(if p.editing.Some? then UpdatedText else AddedText))
      else p
    else p.(error := Some(SaveFailedText))
  }

  /** The HTTP answer of PUT /api/menu-items/:id: 200 with the updated row, 404 with
      'Menu item not found', and 500 from Express's default handler otherwise. */
  function SaveAnswer(reply: Reply): HttpResult {
    if reply.code == Ok then Answered(Ok, None)
    else if reply.code == NotFound then Answered(NotFound, Some("Menu item not found"))
    else Answered(reply.code, None)
  }

  const Categories: seq<string> := ["all", "appetizer", "main", "dessert", "beverage", "snack", "salad"]

  /** `categoryLabels` */
  function CategoryLabel(c: string): Option<string> {
    match c
    case "all" => Some("Todos")
    case "appetizer" => Some("Entradas")
    case "main" => Some("Pratos Principais")
    case "dessert" => Some("Sobremesas")
    case "beverage" => Some("Bebidas")
    case "snack" => Some("Lanches")
    case "salad" => Some("Saladas")
    case _ => None
  }

  // ---------------------------------------------------------------------------------------

  /** Each of the seven category buttons has its own label, and only those do. */
  lemma CategoryLabelsComplete(c: string)
    ensures |Categories| == 7 && Distinct(Categories)
    ensures CategoryLabel(c).Some? <==> c in Categories
    ensures forall i, j :: 0 <= i < j < |Categories| ==> CategoryLabel(Categories[i]) != CategoryLabel(Categories[j])
  {
  }

  /** The server's answer to a delete never produces the success message: a removed item comes
      back as 204, which the page silently ignores without refetching. */
  lemma ServerDeleteNeverSucceeds(s: Store, id: int)
    ensures !ClassifyDelete(DeleteAnswer(DeleteMenuItem(s, id))).message.SuccessMessage?
    ensures id in s.menu && !Referenced(s.items, id) ==>
      ClassifyDelete(DeleteAnswer(DeleteMenuItem(s, id))) == DeleteOutcome(NoMessage, false)
    ensures id !in s.menu ==>
      ClassifyDelete(DeleteAnswer(DeleteMenuItem(s, id))) == DeleteOutcome(ErrorMessage(NotFoundText), true)
    ensures id in s.menu && Referenced(s.items, id) ==>
      ClassifyDelete(DeleteAnswer(DeleteMenuItem(s, id))) == DeleteOutcome(ErrorMessage(DeleteFailedText), false)
  {
  }

  /** With success on any 2xx, the page reports exactly the deletes the server performed. */
  lemma FixedDeleteReportsRemoval(s: Store, id: int)
    ensures var out := ClassifyDeleteFixed(DeleteAnswer(DeleteMenuItem(s, id)));
      out.message.SuccessMessage? <==> id in s.menu && !Referenced(s.items, id)
    ensures var out := ClassifyDeleteFixed(DeleteAnswer(DeleteMenuItem(s, id)));
      out.message.SuccessMessage? ==> out.refetch && id !in DeleteMenuItem(s, id).store.menu
  {
  }

  /** The 409 and 400 answers show the server's own text. */
  lemma ConflictShowsServerText(status: int, text: string)
    requires status == 409 || status == 400
    ensures ClassifyDelete(Answered(status, Some(text))) == DeleteOutcome(ErrorMessage(text), false)
  {
  }

  /** Saving an edit: the page resets its form and reports the update exactly when the server
      found the item, in which case the store holds the submitted fields; otherwise the store
      is unchanged and the page keeps the draft and shows the save error. */
  lemma SaveEditOutcome(p: Page, s: Store, e: MenuItem, f: MenuFields)
    requires p.editing == Some(e)
    ensures var reply := UpdateMenuItem(s, e.id, f);
      var q := AfterSave(p, SaveAnswer(reply));
      && (q.success == Some(UpdatedText) && q.editing.None? && !q.formVisible && q.newItem == BlankItem
          <==> e.id in s.menu)
      && (e.id in s.menu ==>
            reply.store.menu[e.id] == MenuItem(e.id, f.name, f.description, f.price, f.category, f.isAvailable))
      && (e.id !in s.menu ==> reply.store == s && q == p.(error := Some(SaveFailedText)))
  {
  }
}
