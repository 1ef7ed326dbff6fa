/**
 * filestorage.FileMetadata: the metadata of one stored file. The ID is
 * set once by the storage, the file information (size and checksum)
 * once by SetFile, and the stored flag by SetStored.
 */
module FileStorageMetadata {
  import opened Wrappers

  /** The file information SetFile records. */
  datatype Finished = Finished(size: int, checksum: string, checksumFormat: string)

  /** The errors the metadata reports, by message. */
  datatype MetaError =
    | MissingID              // "missing ID"
    | MissingFileInfo        // "missing file info (see SetFile())"
    | AlreadyComplete        // "metadata already complete"
    | MissingSize            // "missing size"
    | MissingChecksum        // "missing checksum"
    | MissingChecksumFormat  // "missing checksum format"

  /** The error SetFile reports for its arguments, in the order it checks them, on metadata without file information. */
  function FileInfoError(size: int, checksum: string, format: string): (r: Option<MetaError>)
    ensures r.None? <==> size > 0 && checksum != "" && format != ""
    ensures size <= 0 ==> r == Some(MissingSize)
    ensures size > 0 && checksum == "" ==> r == Some(MissingChecksum)
    ensures size > 0 && checksum != "" && format == "" ==> r == Some(MissingChecksumFormat)
  {
    if size <= 0 then Some(MissingSize)
    else if checksum == "" then Some(MissingChecksum)
    else if format == "" then Some(MissingChecksumFormat)
    else None
  }

  class FileMetadata {
    var id: string
    const timestamp: Time
    var finished: Option<Finished>
    var stored: bool

    /** NewMetadata: no ID, no file information, not stored; `now` stands for time.Now().UTC(). */
    constructor (timestamp: Option<Time>, now: Time)
      ensures id == "" && finished.None? && !stored
      ensures this.timestamp == if timestamp.Some? then timestamp.value else now
    {
      id := "";
      this.timestamp := if timestamp.Some? then timestamp.value else now;
      finished := None;
      stored := false;
    }

    function ID(): string
      reads this
    {
      id
    }

    /** Size, Checksum and ChecksumFormat: the recorded file information, or 0 and "" before SetFile. */
    function Size(): (r: int)
      reads this
      ensures finished.None? ==> r == 0
      ensures finished.Some? ==> r == finished.value.size
    {
      if finished.None? then 0 else finished.value.size
    }

    function Checksum(): (r: string)
      reads this
      ensures finished.None? ==> r == ""
      ensures finished.Some? ==> r == finished.value.checksum
    {
      if finished.None? then "" else finished.value.checksum
    }

    function ChecksumFormat(): (r: string)
      reads this
      ensures finished.None? ==> r == ""
      ensures finished.Some? ==> r == finished.value.checksumFormat
    {
      if finished.None? then "" else finished.value.checksumFormat
    }

    function Timestamp(): Time {
      timestamp
    }

    function Stored(): bool
      reads this
    {
      stored
    }

    /** CheckComplete: complete exactly when the ID and the file information are set; a missing ID is reported first. */
    function CheckComplete(): (r: Option<MetaError>)
      reads this
      ensures r.None? <==> id != "" && finished.Some?
      ensures id == "" ==> r == Some(MissingID)
      ensures id != "" && finished.None? ==> r == Some(MissingFileInfo)
    {
      if id == "" then Some(MissingID)
      else if finished.None? then Some(MissingFileInfo)
      else None
    }

    /** Doc: the metadata itself is its storable form. */
    function Doc(): (r: FileMetadata)
      ensures r == this
    {
      this
    }

    /** SetID: set-once; reports whether an ID was already there, in which case nothing changes. */
    method SetID(newID: string) returns (alreadySet: bool)
      modifies this`id
      ensures alreadySet == (old(id) != "")
      ensures id == if alreadySet then old(id) else newID
    {
      if id != "" {
        return true;
      }
      id := newID;
      return false;
    }

    /**
     * SetFile: records the file information once. Metadata that already
     * has it is reported complete; otherwise the size, the checksum and
     * the format are checked in that order. Nothing changes on error.
     */
    method SetFile(size: int, checksum: string, format: string) returns (err: Option<MetaError>)
      modifies this`finished
      ensures old(finished).Some? ==> err == Some(AlreadyComplete)
      ensures old(finished).None? ==> err == FileInfoError(size, checksum, format)
      ensures err.Some? ==> finished == old(finished)
      ensures err.None? ==> finished == Some(Finished(size, checksum, format))
      ensures err.None? ==> Size() == size && Checksum() == checksum && ChecksumFormat() == format
    {
      if finished.Some? {
        return Some(AlreadyComplete);
      }
      if size <= 0 {
        return Some(MissingSize);
      }
      if checksum == "" {
        return Some(MissingChecksum);
      }
      if format == "" {
        return Some(MissingChecksumFormat);
      }
      finished := Some(Finished(size, checksum, format));
      return None;
    }

    /** SetStored: marks the file stored; doing it again changes nothing. */
    method SetStored()
      modifies this`stored
      ensures stored && Stored()
    {
      stored := true;
    }
  }
}
