/** `ComponentManager` (script.js:2-461) and `setGitHubConfig`
    (script.js:470-478): the in-memory collection, the edit slot, and the
    decisions that move the collection between memory, `localStorage` and
    the remote `data.json`.

    The browser's `localStorage` is a `LocalStorage` object holding a map.
    The network is a `Network` object that records every request sent; what
    a request returns is not computed here but passed in by the caller as
    the reply the server gave. `confirm` answers are passed in as booleans,
    and `alert` messages become the returned reports. */
module Manager {
  import opened Wrappers
  import opened Seqs
  import opened Text
  import opened Inventory
  import opened Config
  import Serial
  import Transport

  /** The browser's `localStorage`: string entries, each read and written whole. */
  class LocalStorage {
    var entries: map<string, string>

    constructor (initial: map<string, string>)
      ensures entries == initial
    {
      entries := initial;
    }

    method SetItem(key: string, value: string)
      modifies this
      ensures entries == old(entries)[key := value]
    {
      entries := entries[key := value];
    }

    method RemoveItem(key: string)
      modifies this
      ensures entries == old(entries) - {key}
    {
      entries := entries - {key};
    }
  }

  /** The JSON body of an upload: the Base64 content and, when known, the
      version (`sha`) of the document it replaces. The commit message is not
      modelled. */
  datatype PutBody = PutBody(content: string, sha: Option<string>)

  /** A request to the GitHub contents API, with the token it is sent with. */
  datatype Request =
    | Get(url: string, token: string)
    | Put(url: string, token: string, body: PutBody)

  /** The requests sent so far, oldest first. */
  class Network {
    var sent: seq<Request>

    constructor ()
      ensures sent == []
    {
      sent := [];
    }

    method Send(r: Request)
      modifies this
      ensures sent == old(sent) + [r]
    {
      sent := sent + [r];
    }
  }

  /** How a GET of `data.json` ended, as far as the code can tell: `fetch` or
      `response.json()` threw, the response was not `ok`, or it was `ok` with
      the file's Base64 `content` and `sha`. */
  datatype GetReply = GetThrew | GetNotOk | GetOk(content: string, sha: string)

  /** Where `loadData` took the collection from. `LoadFailed` is the
      exception of the unguarded `JSON.parse` of the local copy
      (script.js:69), here raised for every non-empty copy `Serial.Parse`
      rejects. */
  datatype LoadOutcome = LoadedRemote | LoadedLocal | LoadedDefault | LoadFailed

  /** Which of the three messages `syncData` shows. */
  datatype SyncReport = NotConfigured | Synced | SyncFailed

  /** What `loadFromGitHub` yields for a stored configuration and a reply:
      nothing unless sync is configured and the GET succeeded with content
      that decodes. */
  function RemoteData(entries: map<string, string>, reply: GetReply): Option<Collection>
  {
    if IsConfigured(GetGitHubConfig(entries)) && reply.GetOk?
    then Transport.DecodeDocument(reply.content)
    else None
  }

  /** The version sent with an upload: the `sha` of a successful GET, unless
      it is empty (`if (sha)`, script.js:135). */
  function ShaFor(reply: GetReply): Option<string>
  {
    if reply.GetOk? && reply.sha != "" then Some(reply.sha) else None
  }

  /** The requests `saveToGitHub` sends for a stored configuration, a GET
      reply and the collection being uploaded. */
  function PushRequests(entries: map<string, string>, reply: GetReply, cs: Collection): seq<Request>
  {
    var config := GetGitHubConfig(entries);
    var url := ContentsUrl(config.repo);
    if !IsConfigured(config) then []
    else if reply.GetThrew? then [Get(url, config.token)]
    else [Get(url, config.token), Put(url, config.token, PutBody(Transport.EncodeDocument(cs), ShaFor(reply)))]
  }

  /** Without configuration no request is sent; with it, the first request
      is a GET and any upload carries the encoded collection, with a version
      exactly when the GET returned one. */
  lemma PushRequestsShape(entries: map<string, string>, reply: GetReply, cs: Collection)
    ensures var rs := PushRequests(entries, reply, cs);
            var config := GetGitHubConfig(entries);
            && (rs == [] <==> !IsConfigured(config))
            && (rs != [] ==> rs[0] == Get(ContentsUrl(config.repo), config.token))
            && (|rs| == 2 <==> IsConfigured(config) && !reply.GetThrew?)
            && (|rs| == 2 ==> rs[1] == Put(ContentsUrl(config.repo), config.token, rs[1].body)
                              && Transport.DecodeDocument(rs[1].body.content) == Some(cs)
                              && (rs[1].body.sha.Some? <==> reply.GetOk? && reply.sha != ""))
  {
    Transport.DecodeEncodeDocument(cs);
  }

  class ComponentManager {
    var components: Collection
    var editingIndex: int
    const storage: LocalStorage
    const net: Network

    /** The saved copy in `localStorage` reads back as the current collection. */
    predicate Persisted()
      reads this, storage
    {
      ComponentsKey in storage.entries
      && Serial.Parse(storage.entries[ComponentsKey]) == Some(components)
    }

    /** The fields as the constructor leaves them, before `init` loads data. */
    constructor (storage: LocalStorage, net: Network)
      ensures this.storage == storage && this.net == net
      ensures components == [] && editingIndex == -1
    {
      components := [];
      editingIndex := -1;
      this.storage := storage;
      this.net := net;
    }

    /** `saveToLocal`: overwrites the saved copy with the current collection. */
    method SaveToLocal()
      modifies storage
      ensures storage.entries == old(storage.entries)[ComponentsKey := Serial.Serialize(components)]
      ensures Persisted()
    {
      storage.SetItem(ComponentsKey, Serial.Serialize(components));
      Serial.ParseSerialize(components);
    }

    /** `loadFromGitHub`: one GET when sync is configured, none otherwise; the
        decoded collection, or `None` for a missing configuration, a failed
        request or content that does not decode. */
    method LoadFromGitHub(reply: GetReply) returns (data: Option<Collection>)
      modifies net
      ensures var config := GetGitHubConfig(storage.entries);
              net.sent == old(net.sent) + if IsConfigured(config) then [Get(ContentsUrl(config.repo), config.token)] else []
      ensures data == RemoteData(storage.entries, reply)
    {
      var config := GetGitHubConfig(storage.entries);
      if !IsConfigured(config) {
        return None;
      }
      net.Send(Get(ContentsUrl(config.repo), config.token));
      if reply.GetOk? {
        data := Transport.DecodeDocument(reply.content);
      } else {
        data := None;
      }
    }

    /** `loadData`: the remote collection if there is one (also saved
        locally), else the saved copy if it is non-empty, else the two seed
        records (also saved locally). A non-empty saved copy that
        `Serial.Parse` rejects makes `loadData` throw, as `JSON.parse` does
        on malformed text, and leaves the collection as it was. */
    method LoadData(reply: GetReply) returns (outcome: LoadOutcome)
      modifies this, storage, net
      ensures var config := GetGitHubConfig(old(storage.entries));
              net.sent == old(net.sent) + if IsConfigured(config) then [Get(ContentsUrl(config.repo), config.token)] else []
      ensures var remote := RemoteData(old(storage.entries), reply);
              var local := Lookup(old(storage.entries), ComponentsKey);
              if remote.Some? then
                outcome == LoadedRemote && components == remote.value
                && storage.entries == old(storage.entries)[ComponentsKey := Serial.Serialize(components)]
              else if local == "" then
                outcome == LoadedDefault && components == DefaultData()
                && storage.entries == old(storage.entries)[ComponentsKey := Serial.Serialize(components)]
              else if Serial.Parse(local).Some? then
                outcome == LoadedLocal && components == Serial.Parse(local).value
                && storage.entries == old(storage.entries)
              else
                outcome == LoadFailed && components == old(components)
                && storage.entries == old(storage.entries)
      ensures outcome != LoadFailed ==> Persisted() && storage.entries[ComponentsKey] != ""
      ensures editingIndex == old(editingIndex)
    {
      var remote := LoadFromGitHub(reply);
      if remote.Some? {
        components := remote.value;
        SaveToLocal();
        return LoadedRemote;
      }
      var local := Lookup(storage.entries, ComponentsKey);
      if local != "" {
        var parsed := Serial.Parse(local);
        if parsed.Some? {
          components := parsed.value;
          outcome := LoadedLocal;
        } else {
          outcome := LoadFailed;
        }
      } else {
        components := DefaultData();
        SaveToLocal();
        outcome := LoadedDefault;
      }
    }

    /** `saveToGitHub`: nothing is sent without configuration. Otherwise a
        GET for the current version; if it threw, nothing more. Otherwise a
        PUT of the encoded collection with the version from that GET, and
        the result is whether the PUT succeeded. */
    method SaveToGitHub(reply: GetReply, putOk: bool) returns (ok: bool)
      modifies net
      ensures net.sent == old(net.sent) + PushRequests(storage.entries, reply, components)
      ensures ok == (IsConfigured(GetGitHubConfig(storage.entries)) && !reply.GetThrew? && putOk)
    {
      var config := GetGitHubConfig(storage.entries);
      if !IsConfigured(config) {
        return false;
      }
      var url := ContentsUrl(config.repo);
      net.Send(Get(url, config.token));
      if reply.GetThrew? {
        return false;
      }
      var sha: Option<string> := None;
      if reply.GetOk? {
        sha := Some(reply.sha);
      }
      var body := PutBody(Transport.EncodeDocument(components), None);
      if sha.Some? && sha.value != "" {
        body := body.(sha := sha);
      }
      net.Send(Put(url, config.token, body));
      ok := putOk;
    }

    /** `syncData`: without configuration, says so and sends nothing;
        otherwise pushes and reports whether the push succeeded. Neither the
        collection nor the saved copy changes. */
    method SyncData(reply: GetReply, putOk: bool) returns (report: SyncReport)
      modifies net
      ensures !IsConfigured(GetGitHubConfig(storage.entries)) ==>
                report == NotConfigured && net.sent == old(net.sent)
      ensures IsConfigured(GetGitHubConfig(storage.entries)) ==>
                net.sent == old(net.sent) + PushRequests(storage.entries, reply, components)
                && report == if !reply.GetThrew? && putOk then Synced else SyncFailed
    {
      var config := GetGitHubConfig(storage.entries);
      if !IsConfigured(config) {
        return NotConfigured;
      }
      var success := SaveToGitHub(reply, putOk);
      report := if success then Synced else SyncFailed;
    }

    /** `updateStats`: the total and the low-stock counter. */
    method UpdateStats() returns (total: nat, lowStock: nat)
      ensures total == |components| && lowStock == LowStockCount(components)
      ensures lowStock <= total
    {
      total := |components|;
      lowStock := |Filter(components, IsLowStock)|;
    }

    /** `openModal()` from the add button: the next submit appends. */
    method OpenAddModal()
      modifies this
      ensures editingIndex == -1 && components == old(components)
    {
      editingIndex := -1;
    }

    /** `closeModal`. */
    method CloseModal()
      modifies this
      ensures editingIndex == -1 && components == old(components)
    {
      editingIndex := -1;
    }

    /** `editComponent(index)`: for a position in range, opens the form on
        that record and makes the next submit replace it; otherwise nothing. */
    method EditComponent(index: int) returns (form: Option<Component>)
      modifies this
      ensures components == old(components)
      ensures 0 <= index < |components| ==> editingIndex == index && form == Some(components[index])
      ensures !(0 <= index < |components|) ==> editingIndex == old(editingIndex) && form == None
    {
      if 0 <= index < |components| {
        editingIndex := index;
        form := Some(components[index]);
      } else {
        form := None;
      }
    }

    /** `handleSubmit` with the record read from the form: replaces the
        record being edited, or appends when none is; then saves locally
        and closes the form. An edit index equal to the length, left by a
        later delete of the last record, also appends, as the assignment
        `components[length] = c` does in JavaScript. */
    method HandleSubmit(c: Component)
      requires editingIndex <= |components|
      modifies this, storage
      ensures 0 <= old(editingIndex) < |old(components)| ==>
                |components| == |old(components)| && components == old(components)[old(editingIndex) := c]
      ensures (old(editingIndex) < 0 || old(editingIndex) == |old(components)|) ==>
                components == old(components) + [c]
      ensures storage.entries == old(storage.entries)[ComponentsKey := Serial.Serialize(components)]
      ensures Persisted()
      ensures editingIndex == -1
    {
      if editingIndex >= 0 {
        if editingIndex < |components| {
          components := components[editingIndex := c];
        } else {
          components := components + [c];
        }
      } else {
        components := components + [c];
      }
      SaveToLocal();
      CloseModal();
    }

    /** `deleteComponent(index)` with the user's answer to the confirmation:
        for a position in range that the user confirms, removes exactly
        that record and saves locally; otherwise changes nothing. */
    method DeleteComponent(index: int, confirmed: bool)
      modifies this, storage
      ensures if 0 <= index < |old(components)| && confirmed then
                components == RemoveAt(old(components), index)
                && storage.entries == old(storage.entries)[ComponentsKey := Serial.Serialize(components)]
                && Persisted()
              else
                components == old(components) && storage.entries == old(storage.entries)
      ensures editingIndex == old(editingIndex)
    {
      if 0 <= index < |components| && confirmed {
        components := RemoveAt(components, index);
        SaveToLocal();
      }
    }

    /** `handleConfigSubmit` with the two form fields: stores the trimmed pair
        when both are non-empty after trimming, and otherwise stores nothing. */
    method HandleConfigSubmit(tokenInput: string, repoInput: string) returns (saved: bool)
      modifies storage
      ensures saved == (Trim(tokenInput) != "" && Trim(repoInput) != "")
      ensures saved ==>
                storage.entries == old(storage.entries)[TokenKey := Trim(tokenInput)][RepoKey := Trim(repoInput)]
                && GetGitHubConfig(storage.entries) == GitHubConfig(Trim(tokenInput), Trim(repoInput))
                && IsConfigured(GetGitHubConfig(storage.entries))
      ensures !saved ==> storage.entries == old(storage.entries)
    {
      var token := Trim(tokenInput);
      var repo := Trim(repoInput);
      saved := token != "" && repo != "";
      if saved {
        storage.SetItem(TokenKey, token);
        storage.SetItem(RepoKey, repo);
      }
    }

    /** `clearConfig` with the user's answer to the confirmation: removes both
        credential entries, which leaves sync unconfigured. */
    method ClearConfig(confirmed: bool)
      modifies storage
      ensures confirmed ==>
                storage.entries == old(storage.entries) - {TokenKey, RepoKey}
                && !IsConfigured(GetGitHubConfig(storage.entries))
      ensures !confirmed ==> storage.entries == old(storage.entries)
    {
      if confirmed {
        storage.RemoveItem(TokenKey);
        storage.RemoveItem(RepoKey);
      }
    }
  }

  /** `setGitHubConfig(token, repo)`, the console entry point: stores both
      values as given, without trimming or checking them. */
  method SetGitHubConfig(storage: LocalStorage, token: string, repo: string)
    modifies storage
    ensures storage.entries == old(storage.entries)[TokenKey := token][RepoKey := repo]
    ensures GetGitHubConfig(storage.entries) == GitHubConfig(token, repo)
  {
    storage.SetItem(TokenKey, token);
    storage.SetItem(RepoKey, repo);
  }
}
