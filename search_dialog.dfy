/**
 * The non-visual state of CommonSearchDialog: search history and favorites with their
 * preference entries, the highlight context, the window title, and the decisions taken
 * when a result row is selected, previewed, opened or copied.
 */
module SearchDialog {
  import opened Wrappers
  import opened JavaText
  import opened SearchLists
  import opened Results

  /** The SearchContext kept for highlighting: its search text and options (mark-all is always on). */
  datatype HighlightContext = HighlightContext(
    searchFor: Option<string>,
    matchCase: bool,
    wholeWord: bool,
    regularExpression: bool)

  /** Where opening a node jumps: a resource node at a position, or the node itself. */
  datatype JumpTarget = JumpToPosition(resNode: nat, pos: int) | JumpToNode(node: Row)

  /** What openItem asks of the tabs controller and of the window. */
  datatype OpenAction = OpenAction(jump: JumpTarget, dispose: bool)

  /** What updateCodePreview does to the preview area. */
  datatype PreviewUpdate =
    | Unchanged                                                    // no preview area yet
    | Cleared                                                      // text set to ""
    | Shown(text: string, syntax: string, marks: Option<HighlightContext>)

  /** The frame title for a search text (updateTitle). */
  function TitleFor(windowTitle: string, searchText: Option<string>): (r: string)
    ensures r == windowTitle <==> IsNullOrBlank(searchText)
    ensures !IsNullOrBlank(searchText) ==> r == windowTitle + ": " + searchText.value
  {
    if searchText.None? || searchText.value == "" || IsBlank(searchText.value) then windowTitle
    else windowTitle + ": " + searchText.value
  }

  /** openItem: a resource search node jumps to its position, any other node to itself. */
  function OpenItem(node: Row, keepOpen: bool): (a: OpenAction)
    ensures a.jump.JumpToPosition? <==> node.resNode.Some?
    ensures a.jump.JumpToPosition? ==> a.jump.resNode == node.resNode.value && a.jump.pos == node.pos
    ensures a.jump.JumpToNode? ==> a.jump.node == node
    ensures a.dispose <==> !keepOpen
  {
    var jump := if node.resNode.Some? then JumpToPosition(node.resNode.value, node.pos) else JumpToNode(node);
    OpenAction(jump, !keepOpen)
  }

  class CommonSearchDialog {
    const windowTitle: string
    const resultsModel: ResultsModel
    var title: string
    var searchHistory: seq<string>
    var searchFavorites: seq<string>
    /** The user preferences node, as a key-value store. */
    var prefs: map<string, string>
    var highlightContext: Option<HighlightContext>

    constructor (windowTitle: string, prefs: map<string, string>)
      ensures this.windowTitle == windowTitle && title == TitleFor(windowTitle, Some(""))
      ensures searchHistory == [] && searchFavorites == [] && this.prefs == prefs
      ensures highlightContext == None
      ensures fresh(resultsModel) && resultsModel.Valid() && resultsModel.rows == []
    {
      this.windowTitle := windowTitle;
      resultsModel := new ResultsModel();
      title := windowTitle;
      searchHistory := [];
      searchFavorites := [];
      this.prefs := prefs;
      highlightContext := None;
    }

    method UpdateTitle(searchText: Option<string>)
      modifies this`title
      ensures title == TitleFor(windowTitle, searchText)
    {
      title := TitleFor(windowTitle, searchText);
    }

    /** A new search: retitle, remember a non-blank text, and keep its context for highlighting. */
    method UpdateHighlightContext(text: Option<string>, caseSensitive: bool, regexp: bool, wholeWord: bool)
      modifies this`title, this`searchHistory, this`prefs, this`highlightContext
      ensures title == TitleFor(windowTitle, text)
      ensures searchHistory == AddedToHistory(old(searchHistory), text)
      ensures prefs == if IsNullOrBlank(text) then old(prefs) else old(prefs)[HistoryKey := Join(searchHistory)]
      ensures highlightContext == Some(HighlightContext(text, caseSensitive, wholeWord, regexp))
      ensures CurrentSearch() == text
    {
      UpdateTitle(text);
      if text.Some? && !IsBlank(text.value) {
        AddToHistory(text);
      }
      highlightContext := Some(HighlightContext(text, caseSensitive, wholeWord, regexp));
    }

    method DisableHighlight()
      modifies this`highlightContext
      ensures highlightContext == None
      ensures CurrentSearch() == None
    {
      highlightContext := None;
    }

    /** Moves a non-blank text to the front of the history, caps it, and saves it. */
    method AddToHistory(text: Option<string>)
      modifies this`searchHistory, this`prefs
      ensures searchHistory == AddedToHistory(old(searchHistory), text)
      ensures prefs == if IsNullOrBlank(text) then old(prefs) else old(prefs)[HistoryKey := Join(searchHistory)]
    {
      if text.None? || IsBlank(text.value) {
        return;
      }
      searchHistory := RemoveFirst(searchHistory, text.value);
      searchHistory := [text.value] + searchHistory;
      if |searchHistory| > MaxHistory {
        searchHistory := searchHistory[..|searchHistory| - 1];
      }
      SaveHistory();
    }

    /** The "Clear History" menu action. */
    method ClearHistory()
      modifies this`searchHistory, this`prefs
      ensures searchHistory == [] && prefs == old(prefs)[HistoryKey := ""]
    {
      searchHistory := [];
      SaveHistory();
    }

    /** The text the "Add Current Search" action captures when the favorites menu opens. */
    function CurrentSearch(): (r: Option<string>)
      reads this
      ensures highlightContext.Some? ==> r == highlightContext.value.searchFor
      ensures highlightContext.None? ==> r == None
    {
      if highlightContext.Some? then highlightContext.value.searchFor else None
    }

    /** The "Add Current Search" menu action: appends and saves only a search not yet present. */
    method AddCurrentSearchToFavorites(currentSearch: Option<string>)
      modifies this`searchFavorites, this`prefs
      ensures searchFavorites == AddedToFavorites(old(searchFavorites), currentSearch)
      ensures prefs == if searchFavorites == old(searchFavorites) then old(prefs)
                       else old(prefs)[FavoritesKey := Join(searchFavorites)]
    {
      if currentSearch.Some? && currentSearch.value !in searchFavorites {
        searchFavorites := searchFavorites + [currentSearch.value];
        SaveFavorites();
      }
    }

    /** The "Clear Favorites" menu action. */
    method ClearFavorites()
      modifies this`searchFavorites, this`prefs
      ensures searchFavorites == [] && prefs == old(prefs)[FavoritesKey := ""]
    {
      searchFavorites := [];
      SaveFavorites();
    }

    /** Appends the stored lists to the in-memory ones; the history cap is not applied. */
    method LoadHistoryAndFavorites()
      modifies this`searchHistory, this`searchFavorites
      ensures searchHistory == old(searchHistory) + LoadList(PrefGet(prefs, HistoryKey))
      ensures searchFavorites == old(searchFavorites) + LoadList(PrefGet(prefs, FavoritesKey))
    {
      var histStr := PrefGet(prefs, HistoryKey);
      if histStr != "" {
        searchHistory := searchHistory + Split(histStr);
      }
      var favStr := PrefGet(prefs, FavoritesKey);
      if favStr != "" {
        searchFavorites := searchFavorites + Split(favStr);
      }
    }

    method SaveHistory()
      modifies this`prefs
      ensures prefs == old(prefs)[HistoryKey := Join(searchHistory)]
    {
      prefs := prefs[HistoryKey := Join(searchHistory)];
    }

    method SaveFavorites()
      modifies this`prefs
      ensures prefs == old(prefs)[FavoritesKey := Join(searchFavorites)]
    {
      prefs := prefs[FavoritesKey := Join(searchFavorites)];
    }

    /**
     * getSelectedNode for the table's selected row (-1 when none): a node exactly for an
     * index inside the rows; -1, indexes past the end and the exception rows.get throws
     * for other negative indexes all give null.
     */
    function SelectedNode(selectedRow: int): (r: Option<Row>)
      reads this, resultsModel
      ensures r.Some? <==> 0 <= selectedRow < |resultsModel.rows|
      ensures r.Some? ==> r.value == resultsModel.rows[selectedRow]
    {
      if selectedRow == -1 || selectedRow >= resultsModel.RowCount() then None
      else
        match resultsModel.ValueAt(selectedRow, 0)
        case Ok(node) => Some(node)
        case Err(_) => None
    }

    /** openSelectedItem: nothing without a selected node, otherwise openItem on it. */
    function OpenSelectedItem(selectedRow: int, keepOpen: bool): (a: Option<OpenAction>)
      reads this, resultsModel
      ensures a.Some? <==> 0 <= selectedRow < |resultsModel.rows|
      ensures a.Some? ==> a.value == OpenItem(resultsModel.rows[selectedRow], keepOpen)
    {
      match SelectedNode(selectedRow)
      case None => None
      case Some(node) => Some(OpenItem(node, keepOpen))
    }

    /**
     * updateCodePreview: without a node or its description the preview is emptied and
     * nothing is marked; otherwise it shows the description in the node's syntax, marked
     * with the highlight context when there is one.
     */
    function CodePreview(hasPreviewArea: bool, node: Option<Row>): (p: PreviewUpdate)
      reads this
      ensures p.Unchanged? <==> !hasPreviewArea
      ensures p.Cleared? <==> hasPreviewArea && (node.None? || !node.value.hasDesc)
      ensures p.Shown? ==> p.text == node.value.desc && p.syntax == node.value.syntax
      ensures p.Shown? ==> p.marks == highlightContext
    {
      if !hasPreviewArea then Unchanged
      else if node.None? || !node.value.hasDesc then Cleared
      else Shown(node.value.desc, node.value.syntax, highlightContext)
    }

    /** copyAllSearchResults: each code-node reference once, first occurrence first, one per line. */
    method CopyAllSearchResults() returns (text: string)
      ensures text == Lines(UniqueRefs(resultsModel.rows))
    {
      var rows := resultsModel.rows;
      var sb := "";
      var uniqueRefs: set<string> := {};
      for i := 0 to |rows|
        invariant sb == Lines(UniqueRefs(rows[..i]))
        invariant forall x :: x in uniqueRefs <==> x in UniqueRefs(rows[..i])
      {
        assert rows[..i + 1][..i] == rows[..i];
        var node := rows[i];
        if node.javaRef.Some? {
          var codeNodeRef := node.javaRef.value;
          if codeNodeRef !in uniqueRefs {
            uniqueRefs := uniqueRefs + {codeNodeRef};
            sb := sb + codeNodeRef + "\n";
          }
        }
      }
      assert rows[..|rows|] == rows;
      text := sb;
    }

    /** copyAllCodeResults: the description of every row that has one, one per line. */
    method CopyAllCodeResults() returns (text: string)
      ensures text == Lines(Descs(resultsModel.rows))
    {
      var rows := resultsModel.rows;
      var sb := "";
      for i := 0 to |rows|
        invariant sb == Lines(Descs(rows[..i]))
      {
        assert rows[..i + 1][..i] == rows[..i];
        var node := rows[i];
        if node.hasDesc {
          sb := sb + node.desc + "\n";
        }
      }
      assert rows[..|rows|] == rows;
      text := sb;
    }
  }
}
