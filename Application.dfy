/** `Application::getAssetFullPath` (main/Application.cpp): the absolute path of an asset, built
    from the executable's directory and the asset's name. The executable's own path, which the
    program asks the OS for, is a parameter here. */
module Application {
  import opened DirectXHelper

  /** Size of the local buffer the directory is fetched into. */
  const AssetsPathBufferSize: nat := 512

  /** The full path of `assetName`, or the exception `getAssetsPath` throws. */
  function AssetFullPath(exePath: string, assetName: string): (r: Result<string>)
  {
    match AssetsDirectory(exePath, AssetsPathBufferSize)
    case Failure(e) => Failure(e)
    case Success(dir) => Success(dir + assetName)
  }

  /** `getAssetFullPath`: fetches the directory into a 512-character buffer, then appends the
      asset's name. An exception from the lookup propagates, with no partial result. */
  method GetAssetFullPath(exePath: string, assetName: string) returns (r: Result<string>)
    requires '\0' !in exePath
    ensures r == AssetFullPath(exePath, assetName)
  {
    var assetsPath := new char[AssetsPathBufferSize];
    var o := GetAssetsPath(assetsPath, AssetsPathBufferSize, exePath);
    if o.Fail? {
      return Failure(o.exception);
    }
    var dir := CString(assetsPath[..]);
    r := Success(dir + assetName);
  }

  /** The lookup succeeds exactly when the executable's path is non-empty and shorter than the
      buffer; a path that would fill it raises `std::exception` instead of being truncated. */
  lemma AssetFullPathSucceedsIff(exePath: string, assetName: string)
    ensures AssetFullPath(exePath, assetName).Success? <==> 0 < |exePath| < AssetsPathBufferSize
    ensures AssetFullPath(exePath, assetName).Failure? ==>
      AssetFullPath(exePath, assetName).exception == StdException
  {
  }

  /** On success the result is the directory (the executable's path cut after its last backslash)
      followed by the asset's name: its length is the sum of both, it ends with the name, and the
      directory part ends in a backslash whenever the executable's path has one. */
  lemma AssetFullPathShape(exePath: string, assetName: string)
    requires AssetFullPath(exePath, assetName).Success?
    ensures var full := AssetFullPath(exePath, assetName).value;
      var dir := TrimAfterLastBackslash(exePath);
      && full == dir + assetName
      && |full| == |dir| + |assetName|
      && full[|full| - |assetName|..] == assetName
      && dir <= exePath
      && ('\\' in exePath ==> full[|dir| - 1] == '\\')
  {
    var full := AssetFullPath(exePath, assetName).value;
    var dir := TrimAfterLastBackslash(exePath);
    TrimAfterLastBackslashMeaning(exePath);
    assert full[|full| - |assetName|..] == assetName;
    if '\\' in exePath {
      assert full[|dir| - 1] == dir[|dir| - 1];
    }
  }
}
