/**
  The podcast list's play button. Pressing the episode that is marked as
  playing clears the mark and sends nothing; pressing any other episode marks
  it and starts a speech-synthesis request; when the request comes back, the
  payload is decoded as 24 kHz mono audio, and a failure clears the mark.
 */
module Podcast {
  import opened Common
  import opened Pcm

  /** The parts of an episode the play button uses. */
  datatype PodcastEpisode = PodcastEpisode(id: string, summary: string, transcript: string)

  /**
    What the awaited synthesis request produced: it threw (including `atob`
    rejecting the payload), it held no audio data, or the binary string that
    `atob` made of the payload.
   */
  datatype SynthesisResponse = RequestFailed | NoAudio | AudioPayload(binary: string)

  const SampleRate: nat := 24000
  const NumChannels: nat := 1

  /** The application state the play button reads and writes. */
  class PodcastPlayer {
    var playingPodId: Option<string>
    var isGeneratingAudio: bool

    constructor ()
      ensures playingPodId == None && !isGeneratingAudio
    {
      playingPodId := None;
      isGeneratingAudio := false;
    }

    /** The synchronous part of `handlePlayPodcast`, up to the request. */
    method Press(pod: PodcastEpisode) returns (requested: bool)
      modifies this
      ensures requested <==> old(playingPodId) != Some(pod.id)
      ensures !requested ==> playingPodId == None && isGeneratingAudio == old(isGeneratingAudio)
      ensures requested ==> playingPodId == Some(pod.id) && isGeneratingAudio
    {
      if playingPodId == Some(pod.id) {
        playingPodId := None;
        return false;
      }
      isGeneratingAudio := true;
      playingPodId := Some(pod.id);
      requested := true;
    }

    /**
      The part of `handlePlayPodcast` after the request returns: decode the
      payload, keep the mark on success or when there was no audio, clear it
      on any failure, and always end the generating state.
     */
    method Resume(response: SynthesisResponse) returns (played: Option<AudioBuffer>)
      modifies this
      ensures !isGeneratingAudio
      ensures response.RequestFailed? ==> playingPodId == None && played.None?
      ensures response.NoAudio? ==> playingPodId == old(playingPodId) && played.None?
      ensures response.AudioPayload? ==>
                && (played.Some? <==> FrameCount(|response.binary|, NumChannels).Ok?)
                && (played.Some? ==> playingPodId == old(playingPodId))
                && (played.None? ==> playingPodId == None)
      ensures played.Some? ==>
                && response.AudioPayload?
                && fresh(played.value) && played.value.Valid()
                && played.value.sampleRate == SampleRate
                && played.value.numberOfChannels == NumChannels
                && played.value.Channels() == [ScaleAll(Int16Samples(CharCodes(response.binary)))]
    {
      played := None;
      match response {
        case RequestFailed =>
          playingPodId := None;
        case NoAudio =>
        case AudioPayload(binary) =>
          var bytes := DecodeBase64(binary);
          var decoded := DecodeAudioData(bytes, SampleRate, NumChannels);
          if decoded.Err? {
            playingPodId := None;
          } else {
            PodcastClip(bytes[..]);
            played := Some(decoded.value);
          }
      }
      isGeneratingAudio := false;
    }

    /** `source.onended`: the clip finished. */
    method PlaybackEnded()
      modifies this
      ensures playingPodId == None && isGeneratingAudio == old(isGeneratingAudio)
    {
      playingPodId := None;
    }
  }

  /**
    The decoded clip for a payload of whole 16-bit samples: one channel holding
    the samples in payload order, each scaled by 1/32768.
   */
  lemma PodcastClip(bytes: seq<byte>)
    requires |bytes| % 2 == 0 && |bytes| > 0
    ensures FrameCount(|bytes|, NumChannels) == Ok(|bytes| / 2)
    ensures Deinterleave(Int16Samples(bytes), NumChannels, |bytes| / 2)
         == [ScaleAll(Int16Samples(bytes))]
  {
    MonoDeinterleave(Int16Samples(bytes));
  }
}
