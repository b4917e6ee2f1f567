/**
 * The part of the file system the update engine touches, as a map from path to contents.
 * A downloaded file holds bytes; the settings file holds the serialized settings record,
 * kept here as the record itself (JSON serialization is not part of this model).
 */
module FileStore {
  import opened Domain

  datatype FileContent = Bytes(data: seq<byte>) | SettingsJson(settings: Settings)

  class FileSystem {
    var files: map<string, FileContent>

    constructor (initial: map<string, FileContent>)
      ensures files == initial
    {
      files := initial;
    }

    /** `new FileStream(path, FileMode.Create, ...)`: creates the file or truncates it. */
    method Create(path: string)
      modifies this
      ensures files == old(files)[path := Bytes([])]
    {
      files := files[path := Bytes([])];
    }

    /** `FileStream.WriteAsync` on a stream opened by `Create`: appends to the file. */
    method Append(path: string, data: seq<byte>)
      requires path in files && files[path].Bytes?
      modifies this
      ensures files == old(files)[path := Bytes(old(files)[path].data + data)]
    {
      files := files[path := Bytes(files[path].data + data)];
    }

    /** `File.Delete`: removes the file; a missing file is not an error. */
    method Delete(path: string)
      modifies this
      ensures files == old(files) - {path}
    {
      files := files - {path};
    }

    /** `File.WriteAllText` of the serialized settings: a full rewrite of the file. */
    method WriteSettings(path: string, settings: Settings)
      modifies this
      ensures files == old(files)[path := SettingsJson(settings)]
    {
      files := files[path := SettingsJson(settings)];
    }
  }
}
