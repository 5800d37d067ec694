/**
 * The files the recorder leaves for one another: the raw video, the raw audio,
 * the timestamp list and the encoded result, kept as a map from file name to
 * content that the capture and muxing steps update in place.
 */
module Storage {

  /** One captured frame after conversion to BGR pixel bytes. */
  type Frame = seq<bv8>

  /** One audio frame: a sample per channel. */
  type AudioFrame = seq<real>

  datatype Content =
    | VideoFile(frames: seq<Frame>)
    | AudioFile(samples: seq<AudioFrame>)
    | TimestampFile(times: seq<real>)
    | EncodedFile(command: seq<string>)

  class Disk {
    var files: map<string, Content>

    constructor (initial: map<string, Content>)
      ensures files == initial
    {
      files := initial;
    }

    /** Creates or overwrites a file. */
    method Write(path: string, content: Content)
      modifies this
      ensures files == old(files)[path := content]
    {
      files := files[path := content];
    }

    /** `os.remove`: `ok` is false where Python raises FileNotFoundError. */
    method Remove(path: string) returns (ok: bool)
      modifies this
      ensures ok == (path in old(files))
      ensures files == old(files) - {path}
    {
      ok := path in files;
      files := files - {path};
    }
  }
}
