/**
 * The `blog-images` storage bucket as the dashboard uses it: `upload(path, file)`
 * and `getPublicUrl(path)`.
 */
module Storage {

  /** A file picked in the form's file input. */
  datatype File = File(name: string, data: seq<bv8>)

  class Bucket {
    /** The public address of the bucket; a key's public URL is this text followed by the key. */
    const publicBase: string
    var objects: map<string, File>

    constructor (publicBase: string)
      ensures this.publicBase == publicBase && objects == map[]
    {
      this.publicBase := publicBase;
      objects := map[];
    }

    /** `getPublicUrl(key).data.publicUrl`: computed from the key, without contacting the store. */
    function PublicUrl(key: string): string
    {
      publicBase + key
    }

    /**
     * `upload(key, file)` without `upsert`: it fails when `ok` is false (network or
     * permission failure) and when an object is already stored under `key`.
     */
    method Upload(key: string, file: File, ok: bool) returns (success: bool)
      modifies this
      ensures success == (ok && key !in old(objects))
      ensures objects == if success then old(objects)[key := file] else old(objects)
    {
      success := ok && key !in objects;
      if success {
        objects := objects[key := file];
      }
    }
  }
}
