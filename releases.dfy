/**
 * The release record fetched from the nightly channel, the asset records it carries,
 * the update descriptor the repository produces, and the search for the installable asset.
 */
module Releases {
  import opened Wrappers

  /** One downloadable file attached to a release. */
  datatype Asset = Asset(id: int, url: string, contentType: string, size: int)

  /**
   * The latest nightly release. `createdAt` is the creation instant, already parsed to
   * epoch milliseconds.
   */
  datatype Release = Release(tagName: string, createdAt: int, body: string, assets: seq<Asset>)

  /** The kind of update; this repository only ever produces nightly updates. */
  datatype UpdateType = Nightly

  /**
   * The update descriptor handed to the caller. The version and the download URI are
   * kept as the text they are parsed from; `updateDate` is in epoch milliseconds.
   */
  datatype AppUpdate = AppUpdate(
    kind: UpdateType,
    id: int,
    downloadUri: string,
    newVersion: string,
    description: string,
    binarySize: int,
    updateDate: int)

  /** The content type of an installable Android package. */
  const ApkContentType: string := "application/vnd.android.package-archive"

  predicate IsApk(a: Asset) {
    a.contentType == ApkContentType
  }

  /** The index of the first asset whose content type is the package type, if any. */
  function FirstApkIndex(assets: seq<Asset>): (r: Option<nat>)
    ensures r.Some? ==> r.value < |assets| && IsApk(assets[r.value])
    ensures r.Some? ==> forall j :: 0 <= j < r.value ==> !IsApk(assets[j])
    ensures r.None? <==> forall j :: 0 <= j < |assets| ==> !IsApk(assets[j])
  {
    if |assets| == 0 then None
    else if IsApk(assets[0]) then Some(0)
    else match FirstApkIndex(assets[1..])
      case None => None
      case Some(i) => Some(i + 1)
  }

  /** All package assets, in list order: an independent description of what the search looks for. */
  function ApkAssets(assets: seq<Asset>): seq<Asset> {
    if |assets| == 0 then []
    else if IsApk(assets[0]) then [assets[0]] + ApkAssets(assets[1..])
    else ApkAssets(assets[1..])
  }

  /** The search finds nothing exactly when there is no package asset, and otherwise the first one. */
  lemma {:induction false} FirstApkIsFirstOfApkAssets(assets: seq<Asset>)
    ensures FirstApkIndex(assets).None? <==> ApkAssets(assets) == []
    ensures FirstApkIndex(assets).Some? ==> assets[FirstApkIndex(assets).value] == ApkAssets(assets)[0]
  {
    if |assets| > 0 && !IsApk(assets[0]) {
      FirstApkIsFirstOfApkAssets(assets[1..]);
    }
  }

  /** The descriptor built from a release and the asset chosen from it. */
  function NightlyUpdate(release: Release, apk: Asset): AppUpdate {
    AppUpdate(Nightly, apk.id, apk.url, release.tagName, release.body, apk.size, release.createdAt)
  }
}
