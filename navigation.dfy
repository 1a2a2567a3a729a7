/**
 * The navigation handlers of js/db.js with the DOM taken away: the
 * `currentState` object of js/db.js:46-51, the article text area, and the
 * four tables the handlers read and write. Each handler is one atomic method;
 * every store call it makes is given as an `ok` flag that says whether the
 * call succeeded (a failed call rejects, the handler's `catch` logs it, and
 * no later step of the handler runs).
 */
module Navigation {
  import opened Results
  import opened Codec
  import opened Store
  import opened CodecLaws

  datatype Folder = Folder(name: string)
  datatype Category = Category(name: string, folderID: Option<int>)
  datatype Topic = Topic(name: string, categoryID: int)
  datatype Article = Article(content: string, topicID: Option<int>)

  /** `WHERE topicID = X`: a null X matches no row. */
  predicate OfTopic(a: Article, topic: Option<int>) {
    topic.Some? && a.topicID == topic
  }

  /** The articles a `DELETE FROM Articles WHERE topicID = X` leaves. */
  function WithoutTopic(t: Table<Article>, topic: Option<int>): Table<Article> {
    DeleteWhere(t, (a: Article) => OfTopic(a, topic))
  }

  /** An `UPDATE Articles SET content = ...` of one row. */
  function WithContent(t: Table<Article>, id: int, text: string): Table<Article> {
    Update(t, id, (a: Article) => a.(content := text))
  }

  /** An `UPDATE Topics SET name = ...` of one row. */
  function Renamed(t: Table<Topic>, id: int, name: string): Table<Topic> {
    Update(t, id, (x: Topic) => x.(name := name))
  }

  /** Every article of the topic decodes, so loading the topic reaches its end without a throw. */
  predicate TopicLoads(u: Utf8, t: Table<Article>, topic: int) {
    forall k :: k in t.rows && t.rows[k].topicID == Some(topic) ==> Decoded(u, t.rows[k].content).Ok?
  }

  class App {
    /** The `utf8` library the codec calls. */
    const utf8: Utf8
    var folderID: Option<int>
    var topicID: Option<int>
    /** `null` and `false` are both falsy, and the handlers only ever ask whether it is truthy. */
    var isEditingArticle: bool
    /** The id of the edited article's element. */
    var editedArticle: Option<int>
    /** The value of the article text area. */
    var input: string
    var folders: Table<Folder>
    var categories: Table<Category>
    var topics: Table<Topic>
    var articles: Table<Article>

    /** The tables are as SQLite keeps them, and an edit is on exactly when an article is being edited. */
    predicate Valid()
      reads this
    {
      Store.Valid(folders) && Store.Valid(categories) && Store.Valid(topics) && Store.Valid(articles) &&
      (isEditingArticle <==> editedArticle.Some?)
    }

    /** A freshly created database and the initial `currentState`. */
    constructor(u: Utf8)
      ensures Valid()
      ensures utf8 == u && folderID == None && topicID == None && !isEditingArticle && editedArticle == None
      ensures input == "" && folders == Empty() && categories == Empty() && topics == Empty() && articles == Empty()
    {
      utf8 := u;
      folderID, topicID := None, None;
      isEditingArticle, editedArticle := false, None;
      input := "";
      folders, categories, topics, articles := Empty(), Empty(), Empty(), Empty();
    }

    /** Typing into the article text area. */
    method Type(text: string)
      modifies this`input
      ensures input == text
    {
      input := text;
    }

    /** The add button of the folder list: a row under the next id, which is returned. */
    method AddFolder(name: string, ok: bool) returns (id: Option<int>)
      requires Valid()
      modifies this`folders
      ensures Valid()
      ensures ok ==> id.Some? && id.value !in old(folders.rows) && folders.rows == old(folders.rows)[id.value := Folder(name)]
      ensures !ok ==> id == None && folders == old(folders)
    {
      id := None;
      if ok {
        InsertFresh(folders, Folder(name));
        var r := Insert(folders, Folder(name));
        folders, id := r.0, Some(r.1);
      }
    }

    /**
     * A click on a folder: the categories are loaded only when it is not the
     * current folder, and the folder becomes current only once they are.
     */
    method SelectFolder(id: int, ok: bool) returns (loaded: bool)
      requires Valid()
      modifies this`folderID
      ensures Valid()
      ensures loaded <==> old(folderID) != Some(id)
      ensures folderID == (if loaded && ok then Some(id) else old(folderID))
    {
      loaded := folderID != Some(id);
      if loaded && ok {
        folderID := Some(id);
      }
    }

    /**
     * The add button of the category list: a row under the current folder.
     * With no current folder the statement's value list ends in an empty
     * element (SqlLaws.ParentlessInsert), which the database refuses, so
     * nothing is stored then, whatever `ok` says.
     */
    method AddCategory(name: string, ok: bool) returns (id: Option<int>)
      requires Valid()
      modifies this`categories
      ensures Valid()
      ensures ok && folderID.Some? ==> (id.Some? && id.value !in old(categories.rows) &&
        categories.rows == old(categories.rows)[id.value := Category(name, folderID)])
      ensures !(ok && folderID.Some?) ==> id == None && categories == old(categories)
    {
      id := None;
      if ok && folderID.Some? {
        InsertFresh(categories, Category(name, folderID));
        var r := Insert(categories, Category(name, folderID));
        categories, id := r.0, Some(r.1);
      }
    }

    /** The plus button of a category: a topic row under that category. */
    method AddTopic(categoryID: int, name: string, ok: bool) returns (id: Option<int>)
      requires Valid()
      modifies this`topics
      ensures Valid()
      ensures ok ==> (id.Some? && id.value !in old(topics.rows) &&
        topics.rows == old(topics.rows)[id.value := Topic(name, categoryID)])
      ensures !ok ==> id == None && topics == old(topics)
    {
      id := None;
      if ok {
        InsertFresh(topics, Topic(name, categoryID));
        var r := Insert(topics, Topic(name, categoryID));
        topics, id := r.0, Some(r.1);
      }
    }

    /**
     * `deleteCategory`: the answer of the dialog is read and then ignored;
     * only the category row goes (its topics stay), and the result is whether
     * exactly one row changed. `answer` is None when the dialog itself fails.
     */
    method DeleteCategory(categoryID: int, answer: Option<bool>, ok: bool) returns (wasDeleted: bool)
      requires Valid()
      modifies this`categories
      ensures Valid()
      ensures answer.Some? && ok ==> categories == Delete(old(categories), categoryID).0
      ensures wasDeleted <==> answer.Some? && ok && categoryID in old(categories.rows)
      ensures !(answer.Some? && ok) ==> categories == old(categories)
    {
      wasDeleted := false;
      if answer.Some? && ok {
        DeleteChanges(categories, categoryID);
        var r := Delete(categories, categoryID);
        categories := r.0;
        wasDeleted := r.1 == 1;
      }
    }

    /**
     * A click on a topic: when it is not the current topic its articles are
     * loaded in id order and each one is decoded; the topic becomes current
     * only if the query succeeds and no article throws while it is decoded.
     */
    method SelectTopic(id: int, ok: bool) returns (loaded: bool)
      requires Valid()
      modifies this`topicID
      ensures Valid()
      ensures loaded <==> old(topicID) != Some(id)
      ensures topicID == (if loaded && ok && TopicLoads(utf8, articles, id) then Some(id) else old(topicID))
    {
      loaded := topicID != Some(id);
      if !loaded || !ok {
        return;
      }
      var k := 1;
      while k <= articles.lastID
        invariant 1 <= k <= articles.lastID + 1
        invariant forall j :: j in articles.rows && articles.rows[j].topicID == Some(id) && j < k ==>
          Decoded(utf8, articles.rows[j].content).Ok?
        invariant topicID == old(topicID)
      {
        if k in articles.rows && articles.rows[k].topicID == Some(id) {
          var content := HexToUtf8(articles.rows[k].content, utf8);
          if content.Err? {
            return;
          }
        }
        k := k + 1;
      }
      topicID := Some(id);
    }

    /**
     * Enter with no edit going on: the text is encoded and stored under the
     * current topic; the text area is cleared once the new article has been
     * decoded for display. With no current topic the insert is refused, as
     * in AddCategory.
     */
    method AddArticle(ok: bool) returns (id: Option<int>)
      requires Valid() && !isEditingArticle
      modifies this`articles, this`input
      ensures Valid()
      ensures Encoded(utf8, old(input)).Err? || !(ok && topicID.Some?) ==>
        id == None && articles == old(articles) && input == old(input)
      ensures Encoded(utf8, old(input)).Ok? && ok && topicID.Some? ==>
        var hex := Encoded(utf8, old(input)).value;
        id.Some? && id.value !in old(articles.rows) &&
        articles.rows == old(articles.rows)[id.value := Article(hex, topicID)] &&
        input == (if Decoded(utf8, hex).Ok? then "" else old(input))
    {
      id := None;
      var hexContent := Utf8ToHex(input, utf8);
      if hexContent.Err? || !(ok && topicID.Some?) {
        return;
      }
      InsertFresh(articles, Article(hexContent.value, topicID));
      var r := Insert(articles, Article(hexContent.value, topicID));
      articles, id := r.0, Some(r.1);
      var shown := HexToUtf8(hexContent.value, utf8);
      if shown.Ok? {
        input := "";
      }
    }

    /**
     * The edit button of an article: the stored content (the hex text, not
     * the decoded one) goes into the text area and edit mode starts. A query
     * that fails or finds no row changes nothing.
     */
    method BeginEdit(articleID: int, ok: bool)
      requires Valid()
      modifies this`input, this`isEditingArticle, this`editedArticle
      ensures Valid()
      ensures ok && articleID in articles.rows ==>
        input == articles.rows[articleID].content && isEditingArticle && editedArticle == Some(articleID)
      ensures !(ok && articleID in articles.rows) ==>
        input == old(input) && isEditingArticle == old(isEditingArticle) && editedArticle == old(editedArticle)
    {
      if ok && articleID in articles.rows {
        input := articles.rows[articleID].content;
        isEditingArticle, editedArticle := true, Some(articleID);
      }
    }

    /**
     * Enter during an edit: the text area is stored as it is, without
     * encoding; edit mode ends and the text area is cleared only once the
     * stored text has been decoded for display.
     */
    method CommitEdit(ok: bool)
      requires Valid() && isEditingArticle
      modifies this`articles, this`input, this`isEditingArticle, this`editedArticle
      ensures Valid()
      ensures articles == (if ok then WithContent(old(articles), old(editedArticle).value, old(input))
                           else old(articles))
      ensures ok && Decoded(utf8, old(input)).Ok? ==> !isEditingArticle && editedArticle == None && input == ""
      ensures !(ok && Decoded(utf8, old(input)).Ok?) ==>
        isEditingArticle && editedArticle == old(editedArticle) && input == old(input)
    {
      if !ok {
        return;
      }
      var articleID := editedArticle.value;
      var text := input;
      UpdateRows(articles, articleID, (a: Article) => a.(content := text));
      articles := WithContent(articles, articleID, text);
      var shown := HexToUtf8(text, utf8);
      if shown.Ok? {
        isEditingArticle, editedArticle := false, None;
        input := "";
      }
    }

    /**
     * The edit button as evidently intended: the text area gets the decoded
     * text; content that does not decode changes nothing.
     */
    method BeginEditDecoded(articleID: int, ok: bool)
      requires Valid()
      modifies this`input, this`isEditingArticle, this`editedArticle
      ensures Valid()
      ensures ok && articleID in articles.rows && Decoded(utf8, articles.rows[articleID].content).Ok? ==>
        input == Decoded(utf8, articles.rows[articleID].content).value &&
        isEditingArticle && editedArticle == Some(articleID)
      ensures !(ok && articleID in articles.rows && Decoded(utf8, articles.rows[articleID].content).Ok?) ==>
        input == old(input) && isEditingArticle == old(isEditingArticle) && editedArticle == old(editedArticle)
    {
      if ok && articleID in articles.rows {
        var text := HexToUtf8(articles.rows[articleID].content, utf8);
        if text.Ok? {
          input := text.value;
          isEditingArticle, editedArticle := true, Some(articleID);
        }
      }
    }

    /**
     * Enter during an edit as evidently intended: the text is encoded as a
     * new article's is, so the stored content stays hex and its topic keeps
     * loading (EncodedEditKeepsTopic).
     */
    method CommitEditEncoded(ok: bool)
      requires Valid() && isEditingArticle
      modifies this`articles, this`input, this`isEditingArticle, this`editedArticle
      ensures Valid()
      ensures articles == (if ok && Encoded(utf8, old(input)).Ok?
                           then WithContent(old(articles), old(editedArticle).value, Encoded(utf8, old(input)).value)
                           else old(articles))
      ensures ok && Encoded(utf8, old(input)).Ok? && Decoded(utf8, Encoded(utf8, old(input)).value).Ok? ==>
        !isEditingArticle && editedArticle == None && input == ""
      ensures !(ok && Encoded(utf8, old(input)).Ok? && Decoded(utf8, Encoded(utf8, old(input)).value).Ok?) ==>
        isEditingArticle && editedArticle == old(editedArticle) && input == old(input)
    {
      var hex := Utf8ToHex(input, utf8);
      if !ok || hex.Err? {
        return;
      }
      var articleID := editedArticle.value;
      var content := hex.value;
      UpdateRows(articles, articleID, (a: Article) => a.(content := content));
      articles := WithContent(articles, articleID, content);
      var shown := HexToUtf8(content, utf8);
      if shown.Ok? {
        isEditingArticle, editedArticle := false, None;
        input := "";
      }
    }

    /** The delete button of an article: its row goes. */
    method DeleteArticle(articleID: int, ok: bool)
      requires Valid()
      modifies this`articles
      ensures Valid()
      ensures articles == (if ok then Delete(old(articles), articleID).0 else old(articles))
      ensures ok ==> articleID !in articles.rows
    {
      if ok {
        DeleteChanges(articles, articleID);
        articles := Delete(articles, articleID).0;
      }
    }

    /**
     * The delete button of the current topic: its row goes, then every
     * article of the topic. The current topic id is left as it was.
     */
    method DeleteTopic(topicOk: bool, articlesOk: bool)
      requires Valid()
      modifies this`topics, this`articles
      ensures Valid()
      ensures topics == (if topicOk && topicID.Some? then Delete(old(topics), topicID.value).0 else old(topics))
      ensures articles == (if topicOk && articlesOk then WithoutTopic(old(articles), topicID)
                           else old(articles))
      ensures topicOk && articlesOk ==> forall k :: k in articles.rows ==> !OfTopic(articles.rows[k], topicID)
    {
      if !topicOk {
        return;
      }
      if topicID.Some? {
        DeleteChanges(topics, topicID.value);
        topics := Delete(topics, topicID.value).0;
      }
      if articlesOk {
        var topic := topicID;
        DeleteWhereRows(articles, (a: Article) => OfTopic(a, topic));
        articles := WithoutTopic(articles, topicID);
      }
    }

    /**
     * The rename button of the current topic: `answer` is the overlay's
     * outcome, None when it is cancelled. With no current topic the topic
     * element is missing and the handler throws before the update.
     */
    method RenameTopic(answer: Option<string>, ok: bool)
      requires Valid()
      modifies this`topics
      ensures Valid()
      ensures topics == (if answer.Some? && ok && topicID.Some?
                         then Renamed(old(topics), topicID.value, answer.value)
                         else old(topics))
    {
      if answer.Some? && ok && topicID.Some? {
        var name := answer.value;
        UpdateRows(topics, topicID.value, (x: Topic) => x.(name := name));
        topics := Renamed(topics, topicID.value, name);
      }
    }
  }

  // ------------------------------------------------------------------ laws

  /** Committing an edit with the text area as the edit button left it stores the row back unchanged. */
  lemma UnchangedEditKeepsTable(t: Table<Article>, k: int)
    requires k in t.rows
    ensures WithContent(t, k, t.rows[k].content) == t
  {
    assert t.rows[k].(content := t.rows[k].content) == t.rows[k];
    assert t.rows[k := t.rows[k]] == t.rows;
  }

  /**
   * An edit commit stores the text area as it is; text that is not hex (any
   * ordinary text typed over the shown hex) makes the article's topic throw
   * on every later load, so it can no longer be opened.
   */
  lemma RawEditBreaksTopic(u: Utf8, t: Table<Article>, k: int, text: string)
    requires k in t.rows && t.rows[k].topicID.Some? && !HexStrictShape(text)
    ensures !TopicLoads(u, WithContent(t, k, text), t.rows[k].topicID.value)
  {
    IsHexStrictShape(text);
    UpdateRows(t, k, (a: Article) => a.(content := text));
    assert WithContent(t, k, text).rows[k] == t.rows[k].(content := text);
  }

  /** The text of a well-behaved library that neither starts nor ends with NUL. */
  ghost predicate Storable(u: Utf8, text: string) {
    RoundTrips(u) && ZeroBytesOnlyFromNul(u) && u.encode(text).Ok? &&
    (text == [] || (text[0] != '\0' && text[|text| - 1] != '\0'))
  }

  /** A new article stored as AddArticle stores it keeps its topic loadable, and reads back as its text. */
  lemma NewArticleLoads(u: Utf8, t: Table<Article>, topic: int, text: string)
    requires Store.Valid(t) && TopicLoads(u, t, topic) && Storable(u, text)
    ensures Encoded(u, text).Ok?
    ensures Decoded(u, Encoded(u, text).value) == Ok(text)
    ensures TopicLoads(u, Insert(t, Article(Encoded(u, text).value, Some(topic))).0, topic)
  {
    RoundTripText(u, text);
    InsertFresh(t, Article(Encoded(u, text).value, Some(topic)));
  }

  /** An edit committed as CommitEditEncoded commits it keeps every topic loadable. */
  lemma EncodedEditKeepsTopic(u: Utf8, t: Table<Article>, k: int, text: string, topic: int)
    requires TopicLoads(u, t, topic) && Storable(u, text)
    ensures Encoded(u, text).Ok?
    ensures TopicLoads(u, WithContent(t, k, Encoded(u, text).value), topic)
  {
    RoundTripText(u, text);
    UpdateRows(t, k, (a: Article) => a.(content := Encoded(u, text).value));
  }
}
