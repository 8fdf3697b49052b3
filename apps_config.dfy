/**
  * The static table of registered applications and the lookup by
  * application id (frontend/src/lib/apps-config.ts).
  */
module AppsConfig {
  import opened Types

  datatype AppConfig = AppConfig(appId: string, name: string, nameEn: string)

  /** The registered applications, in table order. */
  const Apps: seq<AppConfig> := [
    AppConfig("app1", "アプリ1", "App 1"),
    AppConfig("app2", "アプリ2", "App 2")
  ]

  /** `Array.prototype.find` by application id: the first entry carrying that id. */
  function FindApp(table: seq<AppConfig>, appId: string): (r: Option<AppConfig>)
    ensures r.None? <==> forall i :: 0 <= i < |table| ==> table[i].appId != appId
    ensures r.Some? ==> r.value.appId == appId
    ensures r.Some? ==>
      (exists i :: 0 <= i < |table| && table[i] == r.value && (forall j :: 0 <= j < i ==> table[j].appId != appId))
  {
    if table == [] then None
    else if table[0].appId == appId then Some(table[0])
    else
      var r := FindApp(table[1..], appId);
      if r.Some? then
        var i :| 0 <= i < |table[1..]| && table[1..][i] == r.value &&
          (forall j :: 0 <= j < i ==> table[1..][j].appId != appId);
        assert table[i + 1] == r.value;
        assert forall j :: 0 <= j < i + 1 ==> table[j].appId != appId by {
          forall j | 0 <= j < i + 1 ensures table[j].appId != appId {
            if j > 0 { assert table[j] == table[1..][j - 1]; }
          }
        }
        r
      else
        assert forall i :: 0 <= i < |table| ==> table[i].appId != appId by {
          forall i | 0 <= i < |table| ensures table[i].appId != appId {
            if i > 0 { assert table[i] == table[1..][i - 1]; }
          }
        }
        r
  }

  /** `getAppConfig`: the registered application with that id, if any. */
  function GetAppConfig(appId: string): (r: Option<AppConfig>)
    ensures r.Some? ==> r.value in Apps && r.value.appId == appId
    ensures r.None? <==> forall a :: a in Apps ==> a.appId != appId
  {
    FindApp(Apps, appId)
  }

  /** No two registered applications share an id. */
  lemma AppIdsDistinct()
    ensures forall i, j :: 0 <= i < j < |Apps| ==> Apps[i].appId != Apps[j].appId
  {
    assert Apps[0].appId != Apps[1].appId by { assert Apps[0].appId[3] != Apps[1].appId[3]; }
  }

  /** Looking up the id of a registered application finds that application. */
  lemma GetAppConfigFindsRegistered(a: AppConfig)
    requires a in Apps
    ensures GetAppConfig(a.appId) == Some(a)
  {
    AppIdsDistinct();
    var r := GetAppConfig(a.appId);
    var i :| 0 <= i < |Apps| && Apps[i] == a;
    var k :| 0 <= k < |Apps| && Apps[k] == r.value && (forall j :: 0 <= j < k ==> Apps[j].appId != a.appId);
    if k < i {
      assert Apps[k].appId == Apps[i].appId;
    } else if i < k {
      assert Apps[i].appId == a.appId;
    }
  }

  /** The two registered ids resolve, and an unknown id gives no configuration. */
  lemma GetAppConfigExamples()
    ensures GetAppConfig("app1") == Some(AppConfig("app1", "アプリ1", "App 1"))
    ensures GetAppConfig("app2") == Some(AppConfig("app2", "アプリ2", "App 2"))
    ensures GetAppConfig("invalid-app") == None
  {
    GetAppConfigFindsRegistered(Apps[0]);
    GetAppConfigFindsRegistered(Apps[1]);
    assert |"invalid-app"| != |Apps[0].appId| && |"invalid-app"| != |Apps[1].appId|;
  }
}
