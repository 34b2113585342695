/**
 * The client component's state and its handlers, as a class whose fields are the
 * component's state variables plus the two local-storage keys it writes. One more field,
 * `favoritesAtMount`, records the stored favourites at page load; only the corrected
 * `LoadHistory` reads it.
 * Network replies and what local storage held at page load are parameters.
 */
module App {
  import opened Wrappers
  import opened Api
  import opened HistoryList
  import JsString

  /** What the output pane shows when the generate request fails. */
  const ErrorPlaceholder: string := "// Error: Failed to generate code. Please ensure the backend server is running."

  const InitialTheme: string := "light"
  const InitialLanguage: string := "javascript"

  /** `prev === 'light' ? 'dark' : 'light'`: any theme other than light becomes light. */
  function ToggledTheme(theme: string): (t: string)
    ensures t == "light" || t == "dark"
    ensures t == "dark" <==> theme == "light"
  {
    if theme == "light" then "dark" else "light"
  }

  /** Toggling twice is the identity on the two themes the toggle produces, and only on them. */
  lemma ToggleThemeTwice(theme: string)
    ensures ToggledTheme(ToggledTheme(theme)) == theme <==> theme == "light" || theme == "dark"
  {
  }

  /** `savedFavorites ? JSON.parse(savedFavorites) : []`. */
  function SavedIds(saved: Option<seq<int>>): seq<int> {
    saved.GetOr([])
  }

  class AppState {
    var theme: string
    var prompt: string
    var language: string
    var code: string
    var isGenerating: bool
    var history: seq<Entry>
    /** Local storage key `code-copilot-theme`. */
    var storedTheme: Option<string>
    /** Local storage key `code-copilot-favorites`. */
    var storedFavorites: Option<seq<int>>
    /**
     * The favourite ids local storage held when the page loaded, read before any write.
     * Not a variable of the component: only the corrected `LoadHistory` reads it.
     */
    var favoritesAtMount: seq<int>

    /**
     * The effects keep local storage in step with the state: after every change of
     * `theme` or `history`, the stored theme and the stored favourite ids match it.
     */
    ghost predicate Valid()
      reads this
    {
      storedTheme == Some(theme) && storedFavorites == Some(FavoriteIds(history))
    }

    /**
     * The first render and its effects: the saved theme (if any, and not empty) is adopted,
     * and the favourites effect runs on the still empty history, writing an empty list.
     */
    constructor (savedTheme: Option<string>, savedFavorites: Option<seq<int>>)
      ensures Valid()
      ensures theme == (if savedTheme.Some? && savedTheme.value != "" then savedTheme.value else InitialTheme)
      ensures prompt == "" && language == InitialLanguage && code == "" && !isGenerating
      ensures history == [] && storedFavorites == Some([])
      ensures favoritesAtMount == SavedIds(savedFavorites)
    {
      theme := if savedTheme.Some? && savedTheme.value != "" then savedTheme.value else InitialTheme;
      prompt := "";
      language := InitialLanguage;
      code := "";
      isGenerating := false;
      history := [];
      favoritesAtMount := SavedIds(savedFavorites);
      storedTheme := Some(theme);
      storedFavorites := Some(FavoriteIds([]));
    }

    /** The prompt box's `setPrompt`. */
    method SetPrompt(p: string)
      requires Valid()
      modifies this`prompt
      ensures Valid() && prompt == p
    {
      prompt := p;
    }

    /** The language selector's `setLanguage`. */
    method SetLanguage(l: string)
      requires Valid()
      modifies this`language
      ensures Valid() && language == l
    {
      language := l;
    }

    /** `toggleTheme`, followed by the theme effect's write to local storage. */
    method ToggleTheme()
      requires Valid()
      modifies this`theme, this`storedTheme
      ensures Valid()
      ensures theme == ToggledTheme(old(theme))
    {
      theme := ToggledTheme(theme);
      storedTheme := Some(theme);
    }

    /**
     * `fetchHistory` as written: once the reply arrives, the favourite ids are read from
     * local storage, which the favourites effect has by then overwritten.
     */
    method LoadHistoryAsWritten(reply: Option<seq<Item>>)
      requires Valid()
      modifies this`history, this`storedFavorites
      ensures Valid()
      ensures history == if reply.Some? then Merge(reply.value, SavedIds(old(storedFavorites))) else old(history)
    {
      if reply.Some? {
        var favoriteIds := SavedIds(storedFavorites);
        history := Merge(reply.value, favoriteIds);
        storedFavorites := Some(FavoriteIds(history));
      }
    }

    /** `fetchHistory` with the favourite ids that local storage held when the page loaded. */
    method LoadHistory(reply: Option<seq<Item>>)
      requires Valid()
      modifies this`history, this`storedFavorites
      ensures Valid()
      ensures history == if reply.Some? then Merge(reply.value, favoritesAtMount) else old(history)
    {
      if reply.Some? {
        history := Merge(reply.value, favoritesAtMount);
        storedFavorites := Some(FavoriteIds(history));
      }
    }

    /**
     * `handleGenerate`, with the reply of `POST /api/generate` as a parameter (`None` when
     * the request throws). A blank prompt changes nothing. Otherwise the request is started
     * and, once the reply is in, finished.
     */
    method Generate(reply: Option<Item>)
      requires Valid()
      modifies this`isGenerating, this`code, this`history, this`storedFavorites
      ensures Valid()
      ensures JsString.Trim(prompt) == [] ==>
        isGenerating == old(isGenerating) && code == old(code) && history == old(history)
      ensures JsString.Trim(prompt) != [] ==> !isGenerating && GenerateShown(reply, old(history))
      ensures storedFavorites == old(storedFavorites)
    {
      if JsString.Trim(prompt) != [] {
        StartGenerate();
        FinishGenerate(reply);
      }
    }

    /**
     * What the pane and the history show after a reply: a reply with code shows it and
     * prepends it to the previous history, a reply without code leaves the cleared pane
     * empty, a failure shows the error placeholder and leaves the history as it was.
     */
    ghost predicate GenerateShown(reply: Option<Item>, before: seq<Entry>)
      reads this
    {
      match reply
      case None => code == ErrorPlaceholder && history == before
      case Some(data) =>
        if data.code != "" then code == data.code && history == Prepend(data, before)
        else code == "" && history == before
    }

    /** The synchronous part of `handleGenerate` before the request: mark busy, clear the pane. */
    method StartGenerate()
      requires Valid()
      modifies this`isGenerating, this`code
      ensures Valid() && isGenerating && code == ""
    {
      isGenerating := true;
      code := "";
    }

    /** The part of `handleGenerate` after the request, including its `finally`. */
    method FinishGenerate(reply: Option<Item>)
      requires Valid() && code == ""
      modifies this`isGenerating, this`code, this`history, this`storedFavorites
      ensures Valid() && !isGenerating
      ensures GenerateShown(reply, old(history))
      ensures storedFavorites == old(storedFavorites)
    {
      if reply.None? {
        code := ErrorPlaceholder;
      } else if reply.value.code != "" {
        code := reply.value.code;
        PrependKeepsFavoriteIds(reply.value, history);
        history := Prepend(reply.value, history);
        storedFavorites := Some(FavoriteIds(history));
      }
      isGenerating := false;
    }

    /** `handleHistorySelect`: the item's prompt, language and code become the editing state. */
    method SelectHistory(item: Entry)
      requires Valid()
      modifies this`prompt, this`language, this`code
      ensures Valid()
      ensures prompt == item.prompt && language == item.language && code == item.code
    {
      prompt := item.prompt;
      language := item.language;
      code := item.code;
    }

    /**
     * `handleDeleteHistory`, with the outcome of `DELETE /api/history/:id` as a parameter
     * (`false` when the request throws, a 404 included): only an accepted delete removes the id.
     */
    method DeleteHistory(id: int, serverAccepted: bool)
      requires Valid()
      modifies this`history, this`storedFavorites
      ensures Valid()
      ensures history == if serverAccepted then RemoveById(old(history), id) else old(history)
    {
      if serverAccepted {
        history := RemoveById(history, id);
        storedFavorites := Some(FavoriteIds(history));
      }
    }

    /** `handleToggleFavorite`, followed by the favourites effect's write. */
    method ToggleFavorite(id: int)
      requires Valid()
      modifies this`history, this`storedFavorites
      ensures Valid()
      ensures history == HistoryList.ToggleFavorite(old(history), id)
    {
      history := HistoryList.ToggleFavorite(history, id);
      storedFavorites := Some(FavoriteIds(history));
    }
  }

  /**
   * A page reload as written: whatever favourites were saved, the reloaded history
   * has no favourite at all.
   */
  method ReloadAsWritten(savedTheme: Option<string>, savedFavorites: Option<seq<int>>, items: seq<Item>)
    returns (h: seq<Entry>)
    ensures |h| == |items|
    ensures forall k :: 0 <= k < |h| ==> ToItem(h[k]) == items[k] && !h[k].favorite
  {
    var app := new AppState(savedTheme, savedFavorites);
    app.LoadHistoryAsWritten(Some(items));
    h := app.history;
  }

  /**
   * A page reload with the favourites read at load time: when the server returns the same
   * entries, the history comes back exactly as it was before the reload, favourite flags included.
   */
  method Reload(before: seq<Entry>, savedTheme: Option<string>)
    returns (h: seq<Entry>)
    requires UniqueIds(before)
    ensures h == before
  {
    var app := new AppState(savedTheme, Some(FavoriteIds(before)));
    app.LoadHistory(Some(ToItems(before)));
    MergeRestoresFavorites(before);
    h := app.history;
  }
}
