/**
 * The local-disk variant of the web application in main.py: the `./files`
 * directory as a map from file name to content, and the `upload`,
 * `list_files`, `get_file` and `delete` routes as methods that read or
 * change it.
 */
module App {
  import opened Wrappers
  import opened Validator

  newtype byte = x: int | 0 <= x < 256

  /** The multipart field `form_file`: the client's file name and the bytes sent. */
  datatype FileUpload = FileUpload(filename: string, content: seq<byte>)

  /** What a state-changing route answers: a redirect to `/`, or an error status. */
  datatype Response = Redirect | BadRequest | NotFound

  /**
   * The `file` test of `upload`: the field was sent and, as for Werkzeug's
   * `FileStorage`, an upload without a file name counts as false.
   */
  predicate Present(upload: Option<FileUpload>)
  {
    upload.Some? && upload.value.filename != ""
  }

  /** `file and allowed_file(file.filename)`: the condition under which `upload` stores the file. */
  predicate Accepted(upload: Option<FileUpload>)
    ensures Accepted(upload) <==> upload.Some? && AllowedFile(upload.value.filename)
  {
    Present(upload) && AllowedFile(upload.value.filename)
  }

  /** `entries` is a listing of the directory whose file names are `names`: each exactly once, in some order. */
  ghost predicate Enumerates(entries: seq<string>, names: set<string>)
  {
    Distinct(entries) && forall f :: f in entries <==> f in names
  }

  /** An accepted upload is an upload whose file name the listing filter keeps. */
  lemma AcceptedNameIsListed(upload: Option<FileUpload>)
    requires Accepted(upload)
    ensures ListedName(upload.value.filename)
  {
    ListingAgreesWithValidator(upload.value.filename);
  }

  class FileStore {
    /** The sanitiser `secure_filename` applies; it is Werkzeug's and arbitrary here. */
    const secureFilename: string -> string
    /** The contents of the `./files` directory. */
    var files: map<string, seq<byte>>

    constructor (sanitizer: string -> string, initial: map<string, seq<byte>>)
      ensures secureFilename == sanitizer && files == initial
    {
      secureFilename := sanitizer;
      files := initial;
    }

    /**
     * `POST /upload`. An accepted upload is saved under its sanitised name,
     * replacing what was there, and the client is redirected; anything else
     * is answered with 400 and the directory is left alone.
     */
    method Upload(upload: Option<FileUpload>) returns (r: Response)
      modifies this`files
      ensures Accepted(upload) ==>
        r == Redirect && files == old(files)[secureFilename(upload.value.filename) := upload.value.content]
      ensures Accepted(upload) ==>
        forall f :: f != secureFilename(upload.value.filename) ==>
          (f in files <==> f in old(files)) && (f in files ==> files[f] == old(files)[f])
      ensures !Accepted(upload) ==> r == BadRequest && files == old(files)
    {
      if upload.Some? && upload.value.filename != "" && AllowedFile(upload.value.filename) {
        var name := secureFilename(upload.value.filename);
        files := files[name := upload.value.content];
        r := Redirect;
      } else {
        r := BadRequest;
      }
    }

    /**
     * `GET /files`: the entries of the directory listing `entries` that the
     * filter keeps. They are exactly the stored names `allowed_file` accepts,
     * in listing order, each once.
     */
    method ListFiles(entries: seq<string>) returns (names: seq<string>)
      requires Enumerates(entries, files.Keys)
      ensures names == ListedNames(entries)
      ensures forall f :: f in names <==> f in files && AllowedFile(f)
      ensures Distinct(names)
    {
      names := ListedNames(entries);
      ListedNamesAreAllowed(entries);
      SubsequenceDistinct(names, entries);
    }

    /** `GET /files/<filename>`: the stored bytes, or None when there is no such file. */
    method GetFile(filename: string) returns (r: Option<seq<byte>>)
      ensures r.Some? <==> filename in files
      ensures r.Some? ==> r.value == files[filename]
    {
      if filename in files {
        r := Some(files[filename]);
      } else {
        r := None;
      }
    }

    /**
     * `GET /delete/<filename>`: an existing file is removed and the client is
     * redirected; otherwise 404 and the directory is left alone.
     */
    method Delete(filename: string) returns (r: Response)
      modifies this`files
      ensures filename in old(files) ==> r == Redirect && files == old(files) - {filename}
      ensures filename !in old(files) ==> r == NotFound && files == old(files)
    {
      if filename in files {
        files := files - {filename};
        r := Redirect;
      } else {
        r := NotFound;
      }
    }
  }

  /** Viewing a freshly uploaded file serves exactly the uploaded bytes. */
  method UploadThenView(store: FileStore, upload: Option<FileUpload>) returns (r: Response, served: Option<seq<byte>>)
    requires Accepted(upload)
    modifies store
    ensures r == Redirect
    ensures served == Some(upload.value.content)
  {
    r := store.Upload(upload);
    served := store.GetFile(store.secureFilename(upload.value.filename));
  }

  /** A rejected upload leaves every file as it was, whatever is viewed afterwards. */
  method RejectedUploadThenView(store: FileStore, upload: Option<FileUpload>, filename: string)
    returns (r: Response, served: Option<seq<byte>>)
    requires !Accepted(upload)
    modifies store
    ensures r == BadRequest
    ensures served == if filename in old(store.files) then Some(old(store.files)[filename]) else None
  {
    r := store.Upload(upload);
    served := store.GetFile(filename);
  }

  /**
   * Deleting an existing file twice: the first call redirects, the second
   * answers 404, and a later listing no longer shows the name.
   */
  method DeleteTwice(store: FileStore, filename: string, entries: seq<string>)
    returns (first: Response, second: Response, listed: seq<string>)
    requires filename in store.files
    requires Enumerates(entries, store.files.Keys - {filename})
    modifies store
    ensures first == Redirect && second == NotFound
    ensures store.files == old(store.files) - {filename}
    ensures filename !in listed
  {
    first := store.Delete(filename);
    second := store.Delete(filename);
    listed := store.ListFiles(entries);
  }
}
