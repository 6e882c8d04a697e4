/** Client code that drives `ComponentManager` through a first start offline,
    an offline fallback, a push, a reload elsewhere and two pushes in a row,
    using only the method contracts. */
module Scenarios {
  import opened Wrappers
  import opened Inventory
  import opened Config
  import opened Manager
  import Serial
  import Transport

  /** A first start with nothing saved and no configuration: no request is
      sent, the seed records are loaded and saved, and a sync attempt only
      reports that sync is not configured. */
  method FirstStartOffline(reply: GetReply, putOk: bool)
  {
    var storage := new LocalStorage(map[]);
    var net := new Network();
    var m := new ComponentManager(storage, net);
    var outcome := m.LoadData(reply);
    assert outcome == LoadedDefault && m.components == DefaultData();
    assert m.Persisted() && net.sent == [];
    var report := m.SyncData(reply, putOk);
    assert report == NotConfigured && net.sent == [];
  }

  /** A configured client whose GET fails falls back to the copy it saved
      earlier, exactly as it was saved, after sending one GET. */
  method OfflineFallsBackToSavedCopy(token: string, repo: string, saved: Collection)
    requires token != "" && repo != ""
  {
    var storage := new LocalStorage(map[ComponentsKey := Serial.Serialize(saved)]);
    var net := new Network();
    SetGitHubConfig(storage, token, repo);
    var m := new ComponentManager(storage, net);
    Serial.ParseSerialize(saved);
    var outcome := m.LoadData(GetThrew);
    assert outcome == LoadedLocal && m.components == saved;
    assert net.sent == [Get(ContentsUrl(repo), token)];
  }

  /** A configured client whose GET finds no document loads its saved copy
      and pushes it: the upload carries no version and its content decodes
      to exactly that collection. */
  method PushSavedCopy(token: string, repo: string, cs: Collection)
    requires token != "" && repo != ""
  {
    var storage := new LocalStorage(map[ComponentsKey := Serial.Serialize(cs)]);
    var net := new Network();
    SetGitHubConfig(storage, token, repo);
    var a := new ComponentManager(storage, net);
    Serial.ParseSerialize(cs);
    var _ := a.LoadData(GetNotOk);
    assert a.components == cs;
    var ok := a.SaveToGitHub(GetNotOk, true);
    assert ok && |net.sent| == 3;
    var upload := net.sent[2];
    assert upload.Put? && upload.body.sha == None;
    Transport.DecodeEncodeDocument(cs);
    assert Transport.DecodeDocument(upload.body.content) == Some(cs);
  }

  /** A second client, configured for the same repository and with nothing
      saved, loads a document whose content decodes to `cs` (as every push
      of `cs` does): it takes `cs` and saves it locally. */
  method LoadElsewhere(token: string, repo: string, cs: Collection, newSha: string)
    requires token != "" && repo != ""
  {
    var storage := new LocalStorage(map[]);
    var net := new Network();
    SetGitHubConfig(storage, token, repo);
    var b := new ComponentManager(storage, net);
    Transport.DecodeEncodeDocument(cs);
    var outcome := b.LoadData(GetOk(Transport.EncodeDocument(cs), newSha));
    assert outcome == LoadedRemote && b.components == cs && b.Persisted();
  }

  /** Two pushes in a row: each one sends its own GET first, and the second
      upload carries the version returned by its own GET. */
  method SecondPushUsesFreshVersion(token: string, repo: string, sha1: string, sha2: string)
    requires token != "" && repo != "" && sha2 != ""
  {
    var storage := new LocalStorage(map[]);
    var net := new Network();
    SetGitHubConfig(storage, token, repo);
    var m := new ComponentManager(storage, net);
    var r1 := m.SyncData(GetOk(Transport.EncodeDocument(m.components), sha1), true);
    assert r1 == Synced && |net.sent| == 2;
    var r2 := m.SyncData(GetOk(Transport.EncodeDocument(m.components), sha2), true);
    assert r2 == Synced && |net.sent| == 4;
    assert net.sent[2].Get? && net.sent[3].Put? && net.sent[3].body.sha == Some(sha2);
  }
}
