/** The default-action cache of `src/TuskCache.ts`, over an abstract store of the
    two files it touches: `.TuskCache.json` and `package.json`. */
module TuskCache {
  import opened Optional
  import opened Misc

  /** `ICache` as stored. The file holds whatever `update` last serialised, a
      spread of partial records, so either field may be missing. */
  datatype CacheRecord = CacheRecord(packageJsonVersion: Option<string>, defaultAction: Option<DefaultAction>)

  /** The record with no fields, `{}`. */
  const NoFields := CacheRecord(None, None)

  /** `package.json`: the bytes the hash is taken of, and their parsed form. */
  datatype Manifest = Manifest(contents: string, package: Package)

  /** One field of `{...existing, ...options}`: a supplied value wins, an omitted
      one leaves the earlier value. */
  function Override<T>(earlier: Option<T>, supplied: Option<T>): Option<T> {
    if supplied.Some? then supplied else earlier
  }

  /** `{...existing, ...options}`, where `existing` is `undefined` without a cache
      file. A field is missing from the result exactly when neither side has it. */
  function Merge(existing: Option<CacheRecord>, options: CacheRecord): (r: CacheRecord)
    ensures r.packageJsonVersion.None? <==>
      options.packageJsonVersion.None? && (existing.None? || existing.value.packageJsonVersion.None?)
    ensures r.defaultAction.None? <==>
      options.defaultAction.None? && (existing.None? || existing.value.defaultAction.None?)
  {
    var base := existing.GetOr(NoFields);
    CacheRecord(Override(base.packageJsonVersion, options.packageJsonVersion),
                Override(base.defaultAction, options.defaultAction))
  }

  /** Merge, not replace: supplied fields take the new values, omitted fields keep
      the stored ones. */
  lemma MergeOverExisting(existing: CacheRecord, options: CacheRecord)
    ensures options.packageJsonVersion.Some? ==> Merge(Some(existing), options).packageJsonVersion == options.packageJsonVersion
    ensures options.packageJsonVersion.None? ==> Merge(Some(existing), options).packageJsonVersion == existing.packageJsonVersion
    ensures options.defaultAction.Some? ==> Merge(Some(existing), options).defaultAction == options.defaultAction
    ensures options.defaultAction.None? ==> Merge(Some(existing), options).defaultAction == existing.defaultAction
  {
  }

  /** Without a cache file exactly the supplied fields are written. */
  lemma MergeIntoNothing(options: CacheRecord)
    ensures Merge(None, options) == options
  {
  }

  /** Merging the same fields twice is merging them once, and merging `{}` keeps
      an existing record. */
  lemma MergeIdempotent(existing: Option<CacheRecord>, options: CacheRecord)
    ensures Merge(Some(Merge(existing, options)), options) == Merge(existing, options)
    ensures existing.Some? ==> Merge(existing, NoFields) == existing.value
  {
  }

  /** `TuskCache`: the two files in the working directory. */
  class TuskCache {
    /** `.TuskCache.json` */
    var cacheFile: Option<CacheRecord>
    /** `package.json` */
    var packageFile: Option<Manifest>

    constructor (cacheFile: Option<CacheRecord>, packageFile: Option<Manifest>)
      ensures this.cacheFile == cacheFile && this.packageFile == packageFile
    {
      this.cacheFile := cacheFile;
      this.packageFile := packageFile;
    }

    /** `packageExists`: whether `package.json` is present. */
    method PackageExists() returns (b: bool)
      ensures b <==> packageFile.Some?
    {
      b := packageFile.Some?;
    }

    /** `getPackageHash()`: `null` exactly when `package.json` is absent, otherwise
        the hash of its contents (`hash` stands for the md5 digest). */
    method GetPackageHash(hash: string -> string) returns (h: Option<string>)
      ensures h.None? <==> packageFile.None?
      ensures packageFile.Some? ==> h == Some(hash(packageFile.value.contents))
    {
      var present := PackageExists();
      if !present {
        return None;
      }
      h := Some(hash(packageFile.value.contents));
    }

    /** `exists`: whether `.TuskCache.json` is present. */
    method Exists() returns (b: bool)
      ensures b <==> cacheFile.Some?
    {
      b := cacheFile.Some?;
    }

    /** `readCache()`: `null` exactly when the cache file is absent, otherwise the
        stored record. */
    method ReadCache() returns (r: Option<CacheRecord>)
      ensures r.None? <==> cacheFile.None?
      ensures cacheFile.Some? ==> r == cacheFile
    {
      var present := Exists();
      if !present {
        return None;
      }
      r := cacheFile;
    }

    /** `isPackageModified`: true exactly when the cache file exists (the reverse
        of what its comment says); the manifest is never consulted. */
    method IsPackageModified() returns (modified: bool)
      ensures modified <==> cacheFile.Some?
    {
      var present := Exists();
      if present {
        return true;
      }
      return false;
    }

    /** `updateDefaultAction(action)`: an empty body; neither file changes. */
    method UpdateDefaultAction(action: DefaultAction)
      ensures cacheFile == old(cacheFile) && packageFile == old(packageFile)
    {
    }

    /** `update(options)`: reads the record if the file exists, writes the shallow
        merge of `options` over it, and leaves `package.json` alone. */
    method Update(options: CacheRecord)
      modifies this`cacheFile
      ensures cacheFile == Some(Merge(old(cacheFile), options))
      ensures cacheFile.Some? && packageFile == old(packageFile)
    {
      var existing: Option<CacheRecord> := None;
      if cacheFile.Some? {
        existing := cacheFile;
      }
      cacheFile := Some(Merge(existing, options));
    }
  }

  /** `update(p)` twice leaves the same cache file as `update(p)` once. */
  method UpdateTwice(cache: TuskCache, options: CacheRecord)
    modifies cache`cacheFile
    ensures cache.cacheFile == Some(Merge(old(cache.cacheFile), options))
  {
    cache.Update(options);
    cache.Update(options);
    MergeIdempotent(old(cache.cacheFile), options);
  }
}
