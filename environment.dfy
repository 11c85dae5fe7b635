/** What the upload controller and the file-processing service share: the
    file system, seen as a map from path to the file's text, and the event
    bus, seen as the sequence of events published so far. */
module Environment {

  /** The event that tells the service a temporary file is ready. */
  datatype FileUploadedEvent = FileUploadedEvent(path: string)

  class FileSystem {
    var files: map<string, string>

    constructor (files: map<string, string>)
      ensures this.files == files
    {
      this.files := files;
    }

    /** `File(path).exists()` */
    predicate Exists(path: string)
      reads this
    {
      path in files
    }

    /** Writes a whole file, creating it or replacing its text. */
    method Write(path: string, text: string)
      modifies this
      ensures files == old(files)[path := text]
    {
      files := files[path := text];
    }

    /** `File(path).delete()`; deleting a missing path changes nothing. */
    method Delete(path: string)
      modifies this
      ensures files == old(files) - {path}
    {
      files := files - {path};
    }
  }

  /** Deleting a path that was not there, after writing it, restores the files. */
  lemma DeleteRestores(files: map<string, string>, path: string, first: string, second: string)
    requires path !in files
    ensures files[path := first] - {path} == files
    ensures files[path := first][path := second] - {path} == files
  {
  }

  /** The publishing side of the event bus: each `publish` appends one event
      to the channel, whose capacity is unlimited. */
  class EventBus {
    var published: seq<FileUploadedEvent>

    constructor ()
      ensures published == []
    {
      published := [];
    }

    method Publish(event: FileUploadedEvent)
      modifies this
      ensures published == old(published) + [event]
    {
      published := published + [event];
    }
  }
}
